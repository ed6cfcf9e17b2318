/** Custom Nginx fragments: the scanner that accepts or rejects one fragment, and the
    assembly of accepted fragments into the text that is rendered. The scan of an indented text
    follows the scan of the text itself, whatever quotes and comments are open. */
module NginxFragments {
  import opened Text

  predicate Unbroken(word: string) {
    forall i | 0 <= i < |word| :: word[i] != '\n' && word[i] != ' ' && word[i] != '\U{0B}'
  }

  /** A listed word has no blank in it. */
  type Word = word: string | Unbroken(word) witness ""

  /** The words the scanner looks for. */
  datatype Rules = Rules(forbidden: seq<Word>, prefixes: seq<Word>, reserved: seq<Word>)

  const PROCESS_WORDS: seq<Word> := ["user", "pid", "daemon", "master_process"]
  const MODULE_WORDS: seq<Word> := ["load_module", "env", "working_directory"]
  const BLOCK_WORDS: seq<Word> := ["root", "alias", "perl", "exec", "include"]
  const SERVER_WORDS: seq<Word> := ["server", "location", "upstream", "listen"]
  const FLOW_WORDS: seq<Word> := ["set", "rewrite", "return", "try_files"]
  const ERROR_WORDS: seq<Word> := ["error_page", "recursive_error_pages"]
  const SUBREQUEST_WORDS: seq<Word> := ["auth_request", "mirror"]
  const PASS_WORDS: seq<Word> := ["proxy_pass", "grpc_pass", "fastcgi_pass"]
  const GATEWAY_WORDS: seq<Word> := ["uwsgi_pass", "scgi_pass", "memcached_pass"]
  const CERTIFICATE_WORDS: seq<Word> := ["ssl_certificate", "ssl_certificate_key"]
  const SECRET_WORDS: seq<Word> := ["ssl_session_ticket_key", "auth_basic_user_file"]
  const LOG_WORDS: seq<Word> := ["access_log", "error_log"]
  const BODY_WORDS: seq<Word> := ["client_body_temp_path", "proxy_temp_path"]
  const FILE_WORDS: seq<Word> := ["fastcgi_temp_path", "uwsgi_temp_path", "scgi_temp_path"]
  const STORE_WORDS: seq<Word> := ["proxy_store", "proxy_store_access"]
  const CACHE_WORDS: seq<Word> := ["proxy_cache_path", "proxy_cache", "proxy_cache_key"]
  const BYPASS_WORDS: seq<Word> := ["proxy_cache_bypass", "proxy_no_cache", "proxy_ignore_headers"]

  const FORBIDDEN_WORDS: seq<Word> :=
    (PROCESS_WORDS + MODULE_WORDS + BLOCK_WORDS + SERVER_WORDS) + (FLOW_WORDS + ERROR_WORDS + SUBREQUEST_WORDS) +
    (PASS_WORDS + GATEWAY_WORDS + CERTIFICATE_WORDS + SECRET_WORDS) +
    (LOG_WORDS + BODY_WORDS + FILE_WORDS + STORE_WORDS) +
    (CACHE_WORDS + BYPASS_WORDS)

  const VARIABLE_WORDS: seq<Word> := ["$repo_", "$health_", "$http_x_mirror_internal_"]
  const HEADER_WORDS: seq<Word> := ["x-mirror-internal-", "mirrorrelay_repo_"]
  const ZONE_WORDS: seq<Word> := ["mirrorrelay_cache", "mirrorrelay_frontend"]

  const RESERVED_WORDS: seq<Word> := VARIABLE_WORDS + HEADER_WORDS + ZONE_WORDS

  const RULES := Rules(FORBIDDEN_WORDS, ["proxy_ssl_"], RESERVED_WORDS)

  predicate Contains(s: string, word: string) {
    word <= s || (s != "" && Contains(s[1..], word))
  }

  function WithoutBraces(s: string): string {
    if s == "" then "" else (if s[0] == '{' || s[0] == '}' then "" else [s[0]]) + WithoutBraces(s[1..])
  }

  // ---------------------------------------------------------------- the scanner

  /** `quote` is the open quotation mark, if any. */
  datatype Scanner = Scanner(
    depth: int,
    directiveStart: bool,
    token: string,
    quote: Option<char>,
    escaped: bool,
    comment: bool,
    variableBrace: bool)

  const START := Scanner(0, true, "", None, false, false, false)

  predicate IsReserved(rules: Rules, token: string) {
    exists word | word in rules.reserved :: Contains(WithoutBraces(ToLower(token)), word)
  }

  predicate IsForbidden(rules: Rules, token: string) {
    ToLower(token) in rules.forbidden || exists prefix | prefix in rules.prefixes :: prefix <= ToLower(token)
  }

  predicate MayFlush(rules: Rules, token: string, directiveStart: bool) {
    token == "" || (!IsReserved(rules, token) && (directiveStart ==> !IsForbidden(rules, token)))
  }

  /** The end of a token: check it, forget it, and the directive has started. */
  function Flush(rules: Rules, s: Scanner): Option<Scanner> {
    if s.token == "" then Some(s)
    else if MayFlush(rules, s.token, s.directiveStart) then Some(s.(token := "", directiveStart := false))
    else None
  }

  predicate IsBlank(c: char) {
    c == ' ' || c == '\t' || c == '\r' || c == '\n'
  }

  predicate EndsInDollar(token: string) {
    token != "" && token[|token| - 1] == '$'
  }

  function QuotedStep(s: Scanner, c: char): Scanner
    requires s.quote.Some?
  {
    if s.escaped then s.(token := s.token + [c], escaped := false)
    else if c == '\\' then s.(escaped := true)
    else if c == s.quote.value then s.(quote := None)
    else s.(token := s.token + [c])
  }

  function OpenBrace(rules: Rules, s: Scanner): Option<Scanner> {
    if EndsInDollar(s.token) then Some(s.(token := s.token + ['{'], variableBrace := true))
    else
      match Flush(rules, s)
      case None => None
      case Some(f) => Some(f.(depth := f.depth + 1, directiveStart := true))
  }

  function CloseBrace(rules: Rules, s: Scanner): Option<Scanner> {
    if s.variableBrace then Some(s.(token := s.token + ['}'], variableBrace := false))
    else
      match Flush(rules, s)
      case None => None
      case Some(f) => if f.depth - 1 < 0 then None else Some(f.(depth := f.depth - 1, directiveStart := true))
  }

  function PlainStep(rules: Rules, s: Scanner, c: char): Option<Scanner> {
    if c == '\'' || c == '"' then Some(s.(quote := Some(c)))
    else if c == '\\' then None
    else if c == '#' || c == ';' || IsBlank(c) then
      match Flush(rules, s)
      case None => None
      case Some(f) => Some(if c == '#' then f.(comment := true) else if c == ';' then f.(directiveStart := true) else f)
    else Some(s.(token := s.token + [c]))
  }

  /** One character; `None` rejects the fragment. */
  function Step(rules: Rules, s: Scanner, c: char): Option<Scanner> {
    if s.comment then Some(if c == '\n' then s.(comment := false) else s)
    else if s.quote.Some? then Some(QuotedStep(s, c))
    else if c == '{' then OpenBrace(rules, s)
    else if c == '}' then CloseBrace(rules, s)
    else PlainStep(rules, s, c)
  }

  function Scan(rules: Rules, s: Scanner, text: string): Option<Scanner>
    decreases |text|
  {
    if text == "" then Some(s)
    else
      match Step(rules, s, text[0])
      case None => None
      case Some(next) => Scan(rules, next, text[1..])
  }

  /** No quote, brace or escape is open. */
  predicate Closed(s: Scanner) {
    s == Scanner(0, s.directiveStart, s.token, None, false, s.comment, false)
  }

  /** The end of the content: nothing open, and the last token passes. */
  predicate MayEnd(rules: Rules, s: Scanner) {
    Closed(s) && MayFlush(rules, s.token, s.directiveStart)
  }

  predicate Accepts(rules: Rules, text: string) {
    Scan(rules, START, text).Some? && MayEnd(rules, Scan(rules, START, text).value)
  }

  const MAX_CONTENT := 0x10_0000

  predicate ValidContext(context: string) {
    context == "http" || context == "server" || context == "location" || context == "upstream" ||
        context == "repository"
  }

  predicate AcceptsCustom(rules: Rules, context: string, content: string) {
    ValidContext(ToLower(TrimSpace(context))) && |content| <= MAX_CONTENT && '\0' !in content && Accepts(rules, content)
  }

  // ---------------------------------------------------------------- the assembly

  datatype CustomConfig = CustomConfig(name: string, context: string, repositoryId: int, enabled: bool, content: string)

  datatype Fragments = Fragments(http: string, server: string, byRepository: map<int, string>,
      byUpstreamRepository: map<int, string>)

  const NOTHING := Fragments("", "", map[], map[])

  const INDENT := "        "

  function IndentLines(lines: seq<string>): seq<string> {
    if lines == [] then [] else [INDENT + lines[0]] + IndentLines(lines[1..])
  }

  function Indent(content: string): string {
    Join(IndentLines(Split(TrimSpace(content), '\n')), "\n")
  }

  /** An indented comment line. */
  function Comment(text: string): string {
    INDENT + ("#" + (text + "\n"))
  }

  function Fragment(value: CustomConfig): string {
    Comment(" BEGIN CUSTOM: " + value.name) + (Indent(value.content) + "\n") + Comment(" END CUSTOM: " + value.name)
  }

  predicate ValidName(name: string) {
    var name := TrimSpace(name);
    name != "" && |name| <= 100 && '\0' !in name && '\r' !in name && '\n' !in name
  }

  function Lookup(m: map<int, string>, id: int): string {
    if id in m then m[id] else ""
  }

  /** One configuration appended to its place; `None` rejects the whole list. */
  function Add(rules: Rules, f: Fragments, value: CustomConfig): Option<Fragments> {
    if !value.enabled then Some(f)
    else if !ValidName(value.name) || !AcceptsCustom(rules, value.context, value.content) then None
    else
      var text := Fragment(value);
      if value.context == "http" then
        if value.repositoryId != 0 then None else Some(f.(http := f.http + text))
      else if value.context == "upstream" then
        if value.repositoryId <= 0 then None
        else
          var texts := Lookup(f.byUpstreamRepository, value.repositoryId) + text;
          Some(f.(byUpstreamRepository := f.byUpstreamRepository[value.repositoryId := texts]))
      else if value.context == "server" then
        if value.repositoryId != 0 then None else Some(f.(server := f.server + text))
      else if value.context == "location" || value.context == "repository" then
        if value.repositoryId <= 0 then None
        else
          var texts := Lookup(f.byRepository, value.repositoryId) + text;
          Some(f.(byRepository := f.byRepository[value.repositoryId := texts]))
      else None
  }

  function Classify(rules: Rules, f: Fragments, values: seq<CustomConfig>): Option<Fragments>
    decreases |values|
  {
    if values == [] then Some(f)
    else
      match Add(rules, f, values[0])
      case None => None
      case Some(next) => Classify(rules, next, values[1..])
  }

  // ---------------------------------------------------------------- the loops

  /** The token check of `flush`, word by word. */
  method CheckToken(token: string, directiveStart: bool) returns (ok: bool)
    ensures ok == MayFlush(RULES, token, directiveStart)
  {
    hide RULES, Contains;
    if token == "" {
      return true;
    }
    var value := ToLower(token);
    var normalizedValue := WithoutBraces(value);
    for i := 0 to |RULES.reserved|
      invariant forall j | 0 <= j < i :: !Contains(normalizedValue, RULES.reserved[j])
    {
      if Contains(normalizedValue, RULES.reserved[i]) {
        assert IsReserved(RULES, token);
        return false;
      }
    }
    assert !IsReserved(RULES, token);
    if directiveStart {
      for i := 0 to |RULES.forbidden|
        invariant forall j | 0 <= j < i :: value != RULES.forbidden[j]
      {
        if value == RULES.forbidden[i] {
          return false;
        }
      }
      for i := 0 to |RULES.prefixes|
        invariant forall j | 0 <= j < i :: !(RULES.prefixes[j] <= value)
      {
        if RULES.prefixes[i] <= value {
          assert RULES.prefixes[i] in RULES.prefixes && RULES.prefixes[i] <= ToLower(token);
          return false;
        }
      }
    }
    return true;
  }

  /** One character, on the scanner's variables. */
  method ScanCharacter(character: char, depth: int, directiveStart: bool, token: string, quote: Option<char>,
                       escaped: bool, comment: bool, variableBrace: bool)
    returns (ok: bool, depth': int, directiveStart': bool, token': string, quote': Option<char>,
             escaped': bool, comment': bool, variableBrace': bool)
    ensures Step(RULES, Scanner(depth, directiveStart, token, quote, escaped, comment, variableBrace), character) ==
            if ok then Some(Scanner(depth', directiveStart', token', quote', escaped', comment', variableBrace'))
            else None
  {
    hide RULES, IsReserved, IsForbidden;
    ok, depth', directiveStart', token', quote' := true, depth, directiveStart, token, quote;
    escaped', comment', variableBrace' := escaped, comment, variableBrace;
    if comment {
      if character == '\n' {
        comment' := false;
      }
      return;
    }
    if quote.Some? {
      if escaped {
        token' := token + [character];
        escaped' := false;
      } else if character == '\\' {
        escaped' := true;
      } else if character == quote.value {
        quote' := None;
      } else {
        token' := token + [character];
      }
      return;
    }
    if character == '\'' || character == '"' {
      quote' := Some(character);
    } else if character == '\\' {
      ok := false;
    } else if character == '{' && EndsInDollar(token) {
      token' := token + [character];
      variableBrace' := true;
    } else if character == '}' && variableBrace {
      token' := token + [character];
      variableBrace' := false;
    } else if character in "#{};" || IsBlank(character) {
      ok := CheckToken(token, directiveStart);
      if ok {
        if token != "" {
          directiveStart' := false;
        }
        token' := "";
        if character == '#' {
          comment' := true;
        } else if character == '{' {
          depth' := depth + 1;
          directiveStart' := true;
        } else if character == '}' {
          depth' := depth - 1;
          directiveStart' := true;
          ok := depth' >= 0;
        } else if character == ';' {
          directiveStart' := true;
        }
      }
    } else {
      token' := token + [character];
    }
  }

  /** The scanner's loop decides `AcceptsCustom`. */
  method ValidateCustom(contextName: string, content: string) returns (ok: bool)
    ensures ok == AcceptsCustom(RULES, contextName, content)
  {
    hide RULES, Step, MayFlush;
    if !ValidContext(ToLower(TrimSpace(contextName))) || |content| > MAX_CONTENT || '\0' in content {
      return false;
    }
    var depth, directiveStart, token, quote := 0, true, "", None;
    var escaped, comment, variableBrace := false, false, false;
    var i := 0;
    while i < |content|
      invariant i <= |content|
      invariant Scan(RULES, START, content) ==
                Scan(RULES, Scanner(depth, directiveStart, token, quote, escaped, comment, variableBrace), content[i..])
    {
      ghost var here := Scanner(depth, directiveStart, token, quote, escaped, comment, variableBrace);
      assert content[i..][0] == content[i] && content[i..][1..] == content[i + 1..];
      ok, depth, directiveStart, token, quote, escaped, comment, variableBrace :=
        ScanCharacter(content[i], depth, directiveStart, token, quote, escaped, comment, variableBrace);
      if !ok {
        return false;
      }
      i := i + 1;
    }
    if quote.Some? || escaped || variableBrace {
      return false;
    }
    ok := CheckToken(token, directiveStart);
    return ok && depth == 0;
  }

  /** The loop over the configurations computes `Classify`. */
  method ClassifyCustom(values: seq<CustomConfig>) returns (result: Option<Fragments>)
    ensures result == Classify(RULES, NOTHING, values)
  {
    hide RULES, ValidName, AcceptsCustom, Fragment;
    var f := NOTHING;
    var i := 0;
    while i < |values|
      invariant i <= |values|
      invariant Classify(RULES, NOTHING, values) == Classify(RULES, f, values[i..])
    {
      var value := values[i];
      assert values[i..][0] == value && values[i..][1..] == values[i + 1..];
      i := i + 1;
      if value.enabled {
        var ok := ValidateCustom(value.context, value.content);
        if !ValidName(value.name) || !ok {
          return None;
        }
        var fragment := Fragment(value);
        match value.context {
          case "http" =>
            if value.repositoryId != 0 {
              return None;
            }
            f := f.(http := f.http + fragment);
          case "upstream" =>
            if value.repositoryId <= 0 {
              return None;
            }
            var text := Lookup(f.byUpstreamRepository, value.repositoryId) + fragment;
            f := f.(byUpstreamRepository := f.byUpstreamRepository[value.repositoryId := text]);
          case "server" =>
            if value.repositoryId != 0 {
              return None;
            }
            f := f.(server := f.server + fragment);
          case "location" | "repository" =>
            if value.repositoryId <= 0 {
              return None;
            }
            var text := Lookup(f.byRepository, value.repositoryId) + fragment;
            f := f.(byRepository := f.byRepository[value.repositoryId := text]);
          case _ =>
            return None;
        }
      }
    }
    return Some(f);
  }

  // ---------------------------------------------------------------- scanning a concatenation

  lemma {:induction false} ScanAppend(rules: Rules, s: Scanner, a: string, b: string)
    ensures Scan(rules, s, a + b) ==
            match Scan(rules, s, a)
            case None => None
            case Some(t) => Scan(rules, t, b)
    decreases |a|
  {
    hide Step;
    if a == "" {
      assert a + b == b;
    } else {
      assert (a + b)[1..] == a[1..] + b;
      if Step(rules, s, a[0]).Some? {
        ScanAppend(rules, Step(rules, s, a[0]).value, a[1..], b);
      }
    }
  }

  /** Braces never go below the level the scan started at zero. */
  lemma {:induction false} DepthNeverNegative(rules: Rules, s: Scanner, text: string)
    requires s.depth >= 0 && Scan(rules, s, text).Some?
    ensures Scan(rules, s, text).value.depth >= 0
    decreases |text|
  {
    hide MayFlush, EndsInDollar;
    if text != "" {
      DepthNeverNegative(rules, Step(rules, s, text[0]).value, text[1..]);
    }
  }

  /** While a comment or an escape is open the other flags say so. */
  predicate Coherent(s: Scanner) {
    && (s.comment ==> s.token == "" && s.quote.None?)
    && match s.quote
       case None => !s.escaped
       case Some(q) => q == '\'' || q == '"'
  }

  /** Between fragments: no brace, token, quote or comment is open. Only whether a
      directive has started may vary. */
  predicate Settled(s: Scanner) {
    s == START.(directiveStart := s.directiveStart)
  }

  /** `a` is `b`, except that it may be past the start of a directive. */
  predicate Milder(a: Scanner, b: Scanner) {
    a == b || (a == b.(directiveStart := false))
  }

  lemma FlushMilder(rules: Rules, a: Scanner, b: Scanner)
    requires Milder(a, b) && Flush(rules, b).Some?
    ensures Flush(rules, a).Some? && Milder(Flush(rules, a).value, Flush(rules, b).value)
  {
    hide IsReserved, IsForbidden;
  }

  lemma BracesMilder(rules: Rules, a: Scanner, b: Scanner)
    requires Milder(a, b)
    ensures OpenBrace(rules, b).Some? ==>
            OpenBrace(rules, a).Some? && Milder(OpenBrace(rules, a).value, OpenBrace(rules, b).value)
    ensures CloseBrace(rules, b).Some? ==>
            CloseBrace(rules, a).Some? && Milder(CloseBrace(rules, a).value, CloseBrace(rules, b).value)
  {
    hide Flush, EndsInDollar;
    if Flush(rules, b).Some? {
      FlushMilder(rules, a, b);
    }
  }

  lemma PlainMilder(rules: Rules, a: Scanner, b: Scanner, c: char)
    requires Milder(a, b) && PlainStep(rules, b, c).Some?
    ensures PlainStep(rules, a, c).Some? && Milder(PlainStep(rules, a, c).value, PlainStep(rules, b, c).value)
  {
    hide Flush;
    if Flush(rules, b).Some? {
      FlushMilder(rules, a, b);
    }
  }

  lemma StepMilder(rules: Rules, a: Scanner, b: Scanner, c: char)
    requires Milder(a, b) && Step(rules, b, c).Some?
    ensures Step(rules, a, c).Some? && Milder(Step(rules, a, c).value, Step(rules, b, c).value)
  {
    hide PlainStep, OpenBrace, CloseBrace;
    BracesMilder(rules, a, b);
    if PlainStep(rules, b, c).Some? {
      PlainMilder(rules, a, b, c);
    }
  }

  /** A milder scanner accepts whatever the other accepts, and stays milder: only the
      start of a directive is checked against the forbidden words. */
  lemma {:induction false} ScanMilder(rules: Rules, a: Scanner, b: Scanner, text: string)
    requires Milder(a, b) && Scan(rules, b, text).Some?
    ensures Scan(rules, a, text).Some? && Milder(Scan(rules, a, text).value, Scan(rules, b, text).value)
    decreases |text|
  {
    hide Step, Milder;
    if text != "" {
      StepMilder(rules, a, b, text[0]);
      ScanMilder(rules, Step(rules, a, text[0]).value, Step(rules, b, text[0]).value, text[1..]);
    }
  }

  lemma {:induction false} ScanBlank(rules: Rules, s: Scanner, text: string)
    requires s.token == "" && s.quote.None? && !s.comment && forall c | c in text :: IsBlank(c)
    ensures Scan(rules, s, text) == Some(s)
  {
    if text != "" {
      assert text[0] in text;
      ScanBlank(rules, s, text[1..]);
    }
  }

  lemma {:induction false} ScanComment(rules: Rules, s: Scanner, text: string)
    requires s.comment && '\n' !in text
    ensures Scan(rules, s, text) == Some(s)
  {
    if text != "" {
      ScanComment(rules, s, text[1..]);
    }
  }

  /** A comment line between fragments leaves no trace. */
  lemma ScanCommentLine(rules: Rules, s: Scanner, text: string)
    requires Settled(s) && '\n' !in text
    ensures Scan(rules, s, Comment(text)) == Some(s)
  {
    ScanAppend(rules, s, INDENT, "#" + (text + "\n"));
    ScanBlank(rules, s, INDENT);
    var inside := s.(comment := true);
    assert ("#" + (text + "\n"))[1..] == text + "\n";
    ScanAppend(rules, inside, text, "\n");
    ScanComment(rules, inside, text);
    assert "\n"[1..] == "";
  }

  /** A text that can be placed between fragments: it scans from settled to settled. */
  ghost predicate Composable(rules: Rules, text: string) {
    forall s {:trigger Scan(rules, s, text)} | Settled(s) ::
        Scan(rules, s, text).Some? && Settled(Scan(rules, s, text).value)
  }

  lemma ComposableAppend(rules: Rules, a: string, b: string)
    requires Composable(rules, a) && Composable(rules, b)
    ensures Composable(rules, a + b)
  {
    hide Scan, Settled;
    forall s | Settled(s) ensures Scan(rules, s, a + b).Some? && Settled(Scan(rules, s, a + b).value) {
      ScanAppend(rules, s, a, b);
    }
  }

  lemma ComposableIsAccepted(rules: Rules, text: string)
    requires Composable(rules, text)
    ensures Accepts(rules, text)
  {
    assert Settled(START);
  }

  /** After a scan that may end, a line break settles the scanner. */
  lemma LineBreakSettles(rules: Rules, s: Scanner)
    requires MayEnd(rules, s) && Coherent(s)
    ensures Scan(rules, s, "\n").Some? && Settled(Scan(rules, s, "\n").value)
  {
    assert "\n"[1..] == "";
  }

  // ---------------------------------------------------------------- indentation

  /** What indenting does to the text after the first line's indent. */
  function Spread(text: string): string {
    if text == "" then ""
    else (if text[0] == '\n' then "\n" + INDENT else [text[0]]) + Spread(text[1..])
  }

  lemma {:induction false} SpreadAppend(a: string, b: string)
    ensures Spread(a + b) == Spread(a) + Spread(b)
  {
    if a == "" {
      assert a + b == b;
    } else {
      assert (a + b)[1..] == a[1..] + b;
      SpreadAppend(a[1..], b);
    }
  }

  lemma {:induction false} SpreadOneLine(text: string)
    requires '\n' !in text
    ensures Spread(text) == text
  {
    if text != "" {
      SpreadOneLine(text[1..]);
    }
  }

  lemma {:induction false} IndentIsSpread(text: string)
    ensures Join(IndentLines(Split(text, '\n')), "\n") == INDENT + Spread(text)
    decreases |text|
  {
    hide Spread, Join, IndentLines;
    if '\n' in text {
      var i := IndexOf(text, '\n');
      IndentIsSpread(text[i + 1..]);
      IndentBreak(text[..i], text[i + 1..]);
      assert text == text[..i] + ("\n" + text[i + 1..]);
    } else {
      SpreadOneLine(text);
      IndentOneLine(text);
    }
  }

  lemma IndentOneLine(line: string)
    ensures Join(IndentLines([line]), "\n") == INDENT + line
  {
    assert IndentLines([line]) == [INDENT + line];
  }

  lemma IndentBreak(line: string, rest: string)
    requires '\n' !in line && Join(IndentLines(Split(rest, '\n')), "\n") == INDENT + Spread(rest)
    ensures Join(IndentLines([line] + Split(rest, '\n')), "\n") == INDENT + Spread(line + ("\n" + rest))
  {
    hide Spread, Join, IndentLines, Split;
    IndentFirstLine(line, Split(rest, '\n'));
    SpreadFirstLine(line, rest);
    assert INDENT + line + "\n" + (INDENT + Spread(rest)) == INDENT + (line + ("\n" + INDENT) + Spread(rest));
  }

  lemma IndentFirstLine(line: string, lines: seq<string>)
    requires lines != []
    ensures Join(IndentLines([line] + lines), "\n") == INDENT + line + "\n" + Join(IndentLines(lines), "\n")
  {
    assert ([line] + lines)[1..] == lines;
    var indented := IndentLines([line] + lines);
    assert indented[1..] == IndentLines(lines) && IndentLines(lines) != [];
  }

  lemma SpreadFirstLine(line: string, rest: string)
    requires '\n' !in line
    ensures Spread(line + ("\n" + rest)) == line + ("\n" + INDENT) + Spread(rest)
  {
    SpreadAppend(line, "\n" + rest);
    SpreadOneLine(line);
    assert ("\n" + rest)[1..] == rest;
  }

  lemma {:induction false} PrefixOfSpread(text: string, word: string)
    requires Unbroken(word)
    ensures word <= Spread(text) <==> word <= text
    decreases |text|
  {
    if word != "" && text != "" && text[0] == word[0] {
      assert text[0] != '\n' by { assert word[0] in word; }
      assert Spread(text)[0] == text[0] && Spread(text)[1..] == Spread(text[1..]);
      PrefixOfSpread(text[1..], word[1..]);
      assert word == [word[0]] + word[1..] && text == [text[0]] + text[1..];
      assert Spread(text) == [text[0]] + Spread(text[1..]);
    } else if word != "" && text != "" {
      assert word[0] in word;
      assert Spread(text)[0] == text[0];
    }
  }

  lemma {:induction false} ContainsAfterIndent(indent: string, text: string, word: string)
    requires Unbroken(word) && word != "" && forall c | c in indent :: c == ' ' || c == '\n'
    ensures Contains(indent + text, word) <==> Contains(text, word)
    decreases |indent|
  {
    if indent == "" {
      assert indent + text == text;
    } else {
      assert indent[0] in indent && word[0] in word;
      assert forall c | c in indent[1..] :: c in indent;
      assert (indent + text)[1..] == indent[1..] + text;
      ContainsAfterIndent(indent[1..], text, word);
    }
  }

  lemma {:induction false} ContainedInSpread(text: string, word: string)
    requires Unbroken(word)
    ensures Contains(Spread(text), word) <==> Contains(text, word)
    decreases |text|
  {
    if word != "" && text != "" {
      ContainedInSpread(text[1..], word);
      if text[0] == '\n' {
        ContainsAfterIndent("\n" + INDENT, Spread(text[1..]), word);
        assert word[0] in word;
      } else {
        PrefixOfSpread(text, word);
        assert Spread(text)[1..] == Spread(text[1..]);
      }
    }
  }

  lemma {:induction false} SpreadLower(text: string)
    ensures ToLower(Spread(text)) == Spread(ToLower(text))
  {
    if text != "" {
      SpreadLower(text[1..]);
      var head := if text[0] == '\n' then "\n" + INDENT else [text[0]];
      assert ToLower(text)[1..] == ToLower(text[1..]);
      assert text[0] == '\n' ==> ToLower(head) == head;
    }
  }

  lemma {:induction false} WithoutBracesAppend(a: string, b: string)
    ensures WithoutBraces(a + b) == WithoutBraces(a) + WithoutBraces(b)
  {
    if a == "" {
      assert a + b == b;
    } else {
      assert (a + b)[1..] == a[1..] + b;
      WithoutBracesAppend(a[1..], b);
    }
  }

  lemma {:induction false} BlanksHaveNoBraces(text: string)
    requires forall c | c in text :: c == ' ' || c == '\n'
    ensures WithoutBraces(text) == text
  {
    if text != "" {
      assert text[0] in text;
      assert forall c | c in text[1..] :: c in text;
      BlanksHaveNoBraces(text[1..]);
    }
  }

  lemma {:induction false} SpreadWithoutBraces(text: string)
    ensures WithoutBraces(Spread(text)) == Spread(WithoutBraces(text))
  {
    if text != "" {
      SpreadWithoutBraces(text[1..]);
      var head := if text[0] == '\n' then "\n" + INDENT else [text[0]];
      WithoutBracesAppend(head, Spread(text[1..]));
      if text[0] == '\n' {
        BlanksHaveNoBraces(head);
        assert WithoutBraces(text)[1..] == WithoutBraces(text[1..]);
      } else {
        assert head[1..] == "";
        SpreadAppend(WithoutBraces(head), WithoutBraces(text[1..]));
        assert WithoutBraces(text) == WithoutBraces(head) + WithoutBraces(text[1..]);
        SpreadOneLine(WithoutBraces(head));
      }
    }
  }

  lemma {:induction false} SpreadWithBreak(text: string, word: string)
    requires Unbroken(word)
    ensures Spread(text) == word <==> text == word
    decreases |text|
  {
    if '\n' !in text {
      SpreadOneLine(text);
    } else {
      BreakStays(text);
    }
  }

  lemma {:induction false} BreakStays(text: string)
    requires '\n' in text
    ensures '\n' in Spread(text)
  {
    if text[0] == '\n' {
      assert Spread(text)[0] == '\n';
    } else {
      BreakStays(text[1..]);
    }
  }

  /** Indenting the lines of a token neither creates nor hides a forbidden or reserved word. */
  lemma FlushSpread(rules: Rules, token: string, directiveStart: bool)
    ensures MayFlush(rules, Spread(token), directiveStart) <==> MayFlush(rules, token, directiveStart)
  {
    SpreadLower(token);
    SpreadWithoutBraces(ToLower(token));
    forall word | word in rules.reserved
      ensures Contains(WithoutBraces(ToLower(Spread(token))), word) <==> Contains(WithoutBraces(ToLower(token)), word)
    {
      ContainedInSpread(WithoutBraces(ToLower(token)), word);
    }
    forall word | word in rules.forbidden ensures ToLower(Spread(token)) == word <==> ToLower(token) == word {
      SpreadWithBreak(ToLower(token), word);
    }
    forall prefix | prefix in rules.prefixes ensures prefix <= ToLower(Spread(token)) <==> prefix <= ToLower(token) {
      PrefixOfSpread(ToLower(token), prefix);
    }
  }

  /** Where the scanner stands in the indented text when it stands at `a` in the
      original one. */
  function Indented(a: Scanner): Scanner {
    a.(token := Spread(a.token))
  }

  function IndentedOption(a: Option<Scanner>): Option<Scanner> {
    if a.None? then None else Some(Indented(a.value))
  }

  lemma SpreadEnd(token: string, c: char)
    ensures Spread(token + [c]) == Spread(token) + (if c == '\n' then "\n" + INDENT else [c])
  {
    SpreadAppend(token, [c]);
    assert [c][1..] == "";
  }

  lemma SpreadDollar(token: string)
    ensures EndsInDollar(Spread(token)) == EndsInDollar(token)
  {
    if token != "" {
      SpreadEnd(token[..|token| - 1], token[|token| - 1]);
      assert token == token[..|token| - 1] + [token[|token| - 1]];
    }
  }

  lemma FlushIndented(rules: Rules, a: Scanner)
    ensures Flush(rules, Indented(a)) == IndentedOption(Flush(rules, a))
    ensures a.token == "" <==> Spread(a.token) == ""
  {
    hide MayFlush;
    if a.token != "" {
      FlushSpread(rules, a.token, a.directiveStart);
    }
  }

  lemma StepIndented(rules: Rules, a: Scanner, c: char)
    requires c != '\n'
    ensures Step(rules, Indented(a), c) == IndentedOption(Step(rules, a, c))
  {
    hide Spread, PlainStep, OpenBrace, CloseBrace, QuotedStep;
    if a.comment {
    } else if a.quote.Some? {
      QuotedStepIndented(a, c);
    } else if c == '{' || c == '}' {
      BracesIndented(rules, a);
    } else {
      PlainStepIndented(rules, a, c);
    }
  }

  lemma QuotedStepIndented(a: Scanner, c: char)
    requires c != '\n' && a.quote.Some?
    ensures QuotedStep(Indented(a), c) == Indented(QuotedStep(a, c))
  {
    hide Spread;
    SpreadEnd(a.token, c);
  }

  lemma BracesIndented(rules: Rules, a: Scanner)
    ensures OpenBrace(rules, Indented(a)) == IndentedOption(OpenBrace(rules, a))
    ensures CloseBrace(rules, Indented(a)) == IndentedOption(CloseBrace(rules, a))
  {
    hide Spread, Flush, EndsInDollar;
    SpreadEnd(a.token, '{');
    SpreadEnd(a.token, '}');
    FlushIndented(rules, a);
    SpreadDollar(a.token);
  }

  lemma PlainStepIndented(rules: Rules, a: Scanner, c: char)
    requires c != '\n'
    ensures PlainStep(rules, Indented(a), c) == IndentedOption(PlainStep(rules, a, c))
  {
    hide Spread, Flush;
    SpreadEnd(a.token, c);
    FlushIndented(rules, a);
  }

  lemma {:induction false} QuoteKeepsIndent(rules: Rules, s: Scanner, indent: string)
    requires s.quote.Some? && s.quote.value != ' ' && !s.escaped && !s.comment && forall c | c in indent :: c == ' '
    ensures Scan(rules, s, indent) == Some(s.(token := s.token + indent))
    decreases |indent|
  {
    if indent == "" {
      assert s.token + indent == s.token;
    } else {
      assert indent[0] in indent;
      assert forall c | c in indent[1..] :: c in indent;
      QuoteKeepsIndent(rules, s.(token := s.token + " "), indent[1..]);
      assert s.token + " " + indent[1..] == s.token + indent;
    }
  }

  lemma QuotedBreakIndented(rules: Rules, a: Scanner)
    requires Coherent(a) && a.quote.Some?
    ensures Scan(rules, Indented(a), "\n" + INDENT) == IndentedOption(Step(rules, a, '\n'))
  {
    hide Spread, Flush, Scan;
    SpreadEnd(a.token, '\n');
    ScanOne(rules, Indented(a), '\n', INDENT);
    QuoteKeepsIndent(rules, Step(rules, Indented(a), '\n').value, INDENT);
    assert Spread(a.token) + "\n" + INDENT == Spread(a.token) + ("\n" + INDENT);
  }

  /** A line break and the indent after it. */
  lemma BreakIndented(rules: Rules, a: Scanner)
    requires Coherent(a)
    ensures Scan(rules, Indented(a), "\n" + INDENT) == IndentedOption(Step(rules, a, '\n'))
  {
    hide Spread, MayFlush, Scan;
    if a.quote.Some? {
      QuotedBreakIndented(rules, a);
    } else {
      FlushIndented(rules, a);
      ScanOne(rules, Indented(a), '\n', INDENT);
      if Step(rules, a, '\n').Some? {
        ScanBlank(rules, Step(rules, Indented(a), '\n').value, INDENT);
      }
    }
  }

  lemma ScanOne(rules: Rules, s: Scanner, c: char, text: string)
    ensures Scan(rules, s, [c] + text) ==
            if Step(rules, s, c).None? then None else Scan(rules, Step(rules, s, c).value, text)
  {
    hide Step;
    assert ([c] + text)[1..] == text;
  }

  lemma StepFlags(rules: Rules, a: Scanner, c: char)
    requires Coherent(a) && Step(rules, a, c).Some?
    ensures Coherent(Step(rules, a, c).value)
  {
  }

  lemma {:induction false} ScanFlags(rules: Rules, a: Scanner, text: string)
    requires Coherent(a) && Scan(rules, a, text).Some?
    ensures Coherent(Scan(rules, a, text).value)
    decreases |text|
  {
    hide Step, Coherent;
    if text != "" {
      StepFlags(rules, a, text[0]);
      ScanFlags(rules, Step(rules, a, text[0]).value, text[1..]);
    }
  }

  /** The scanner goes through the indented text as it goes through the original: it
      rejects both or neither, and ends in the same place. */
  lemma {:induction false} ScanIndented(rules: Rules, a: Scanner, text: string)
    requires Coherent(a)
    ensures Scan(rules, Indented(a), Spread(text)) == IndentedOption(Scan(rules, a, text))
    decreases |text|
  {
    hide Step, Coherent, Indented;
    if text != "" {
      if text[0] == '\n' {
        BreakIndented(rules, a);
        ScanAppend(rules, Indented(a), "\n" + INDENT, Spread(text[1..]));
      } else {
        StepIndented(rules, a, text[0]);
        ScanOne(rules, Indented(a), text[0], Spread(text[1..]));
      }
      if Step(rules, a, text[0]).Some? {
        StepFlags(rules, a, text[0]);
        ScanIndented(rules, Step(rules, a, text[0]).value, text[1..]);
      }
    }
  }

  // ---------------------------------------------------------------- composition

  /** Accepted content, indented and closed by a line break, can stand between fragments. */
  lemma ContentComposes(rules: Rules, content: string)
    requires Accepts(rules, TrimSpace(content))
    ensures Composable(rules, Indent(content) + "\n")
  {
    hide Step, MayFlush;
    var text := TrimSpace(content);
    IndentIsSpread(text);
    forall s | Settled(s)
      ensures Scan(rules, s, Indent(content) + "\n").Some? && Settled(Scan(rules, s, Indent(content) + "\n").value)
    {
      ScanAppend(rules, s, INDENT + Spread(text), "\n");
      ScanAppend(rules, s, INDENT, Spread(text));
      ScanBlank(rules, s, INDENT);
      SettledScan(rules, s, text);
      LineBreakSettles(rules, Scan(rules, s, Spread(text)).value);
    }
  }

  lemma SettledScan(rules: Rules, s: Scanner, text: string)
    requires Accepts(rules, text) && Settled(s)
    ensures Scan(rules, s, Spread(text)).Some?
    ensures MayEnd(rules, Scan(rules, s, Spread(text)).value) && Coherent(Scan(rules, s, Spread(text)).value)
  {
    hide Step, IsReserved, IsForbidden;
    ScanMilder(rules, s, START, text);
    assert Indented(s) == s;
    ScanIndented(rules, s, text);
    var end := Scan(rules, s, text).value;
    ScanFlags(rules, s, text);
    FlushSpread(rules, end.token, end.directiveStart);
  }

  lemma CommentComposes(rules: Rules, text: string)
    requires '\n' !in text
    ensures Composable(rules, Comment(text))
  {
    hide Scan, Comment;
    forall s | Settled(s) ensures Scan(rules, s, Comment(text)) == Some(s) {
      ScanCommentLine(rules, s, text);
    }
  }

  /** A fragment whose trimmed content is accepted can stand between fragments. */
  lemma FragmentComposes(rules: Rules, value: CustomConfig)
    requires Accepts(rules, TrimSpace(value.content)) && '\n' !in value.name
    ensures Composable(rules, Fragment(value))
  {
    hide Accepts, Indent, Composable, Comment;
    var begin, end := " BEGIN CUSTOM: " + value.name, " END CUSTOM: " + value.name;
    CommentComposes(rules, begin);
    CommentComposes(rules, end);
    ContentComposes(rules, value.content);
    ComposableAppend(rules, Comment(begin), Indent(value.content) + "\n");
    ComposableAppend(rules, Comment(begin) + (Indent(value.content) + "\n"), Comment(end));
  }

  // ---------------------------------------------------------------- when trimming matters

  /** Two scanners of the same text, one of which started with a pending token `p`. */
  predicate SameShape(p: string, a: Scanner, b: Scanner) {
    b == a.(token := b.token, directiveStart := b.directiveStart) && SameToken(p, a.token, b.token)
  }

  predicate SameToken(p: string, a: string, b: string) {
    (b == a || b == p + a) && !EndsInDollar(p)
  }

  lemma FlushShape(rules: Rules, p: string, a: Scanner, b: Scanner)
    requires SameShape(p, a, b) && Flush(rules, a).Some? && Flush(rules, b).Some?
    ensures SameShape(p, Flush(rules, a).value, Flush(rules, b).value)
  {
    hide MayFlush;
  }

  lemma TokenShape(p: string, a: string, b: string, c: char)
    requires SameToken(p, a, b)
    ensures SameToken(p, a + [c], b + [c]) && EndsInDollar(a) == EndsInDollar(b)
  {
    assert p + a + [c] == p + (a + [c]);
  }

  lemma StepShape(rules: Rules, p: string, a: Scanner, b: Scanner, c: char)
    requires SameShape(p, a, b) && Step(rules, a, c).Some? && Step(rules, b, c).Some?
    ensures SameShape(p, Step(rules, a, c).value, Step(rules, b, c).value)
  {
    hide PlainStep, OpenBrace, CloseBrace, QuotedStep, SameToken;
    if a.comment {
    } else if a.quote.Some? {
      QuotedShape(p, a, b, c);
    } else if c == '{' {
      OpenShape(rules, p, a, b);
    } else if c == '}' {
      CloseShape(rules, p, a, b);
    } else {
      PlainShape(rules, p, a, b, c);
    }
  }

  lemma QuotedShape(p: string, a: Scanner, b: Scanner, c: char)
    requires SameShape(p, a, b) && a.quote.Some?
    ensures SameShape(p, QuotedStep(a, c), QuotedStep(b, c))
  {
    hide SameToken;
    TokenShape(p, a.token, b.token, c);
  }

  lemma OpenShape(rules: Rules, p: string, a: Scanner, b: Scanner)
    requires SameShape(p, a, b) && OpenBrace(rules, a).Some? && OpenBrace(rules, b).Some?
    ensures SameShape(p, OpenBrace(rules, a).value, OpenBrace(rules, b).value)
  {
    hide Flush, SameToken, EndsInDollar;
    TokenShape(p, a.token, b.token, '{');
    if !EndsInDollar(a.token) {
      FlushShape(rules, p, a, b);
    }
  }

  lemma CloseShape(rules: Rules, p: string, a: Scanner, b: Scanner)
    requires SameShape(p, a, b) && CloseBrace(rules, a).Some? && CloseBrace(rules, b).Some?
    ensures SameShape(p, CloseBrace(rules, a).value, CloseBrace(rules, b).value)
  {
    hide Flush, SameToken;
    TokenShape(p, a.token, b.token, '}');
    if !a.variableBrace {
      FlushShape(rules, p, a, b);
    }
  }

  lemma PlainShape(rules: Rules, p: string, a: Scanner, b: Scanner, c: char)
    requires SameShape(p, a, b) && PlainStep(rules, a, c).Some? && PlainStep(rules, b, c).Some?
    ensures SameShape(p, PlainStep(rules, a, c).value, PlainStep(rules, b, c).value)
  {
    hide Flush, SameToken, IsBlank;
    if c != '\'' && c != '"' {
      if c == '#' || c == ';' || IsBlank(c) {
        FlushShape(rules, p, a, b);
      } else {
        TokenShape(p, a.token, b.token, c);
      }
    }
  }

  lemma {:induction false} ScanShape(rules: Rules, p: string, a: Scanner, b: Scanner, text: string)
    requires SameShape(p, a, b) && Scan(rules, a, text).Some? && Scan(rules, b, text).Some?
    ensures SameShape(p, Scan(rules, a, text).value, Scan(rules, b, text).value)
    decreases |text|
  {
    hide Step, SameShape;
    if text != "" {
      StepShape(rules, p, a, b, text[0]);
      ScanShape(rules, p, Step(rules, a, text[0]).value, Step(rules, b, text[0]).value, text[1..]);
    }
  }

  predicate AllSpace(text: string) {
    forall i | 0 <= i < |text| :: IsSpace(text[i])
  }

  /** Leading white space opens nothing; at most it leaves a token of white space. */
  lemma {:induction false} ScanLeadingSpace(rules: Rules, s: Scanner, text: string)
    requires AllSpace(text) && Closed(s) && !s.comment && AllSpace(s.token) && Scan(rules, s, text).Some?
    ensures var t := Scan(rules, s, text).value; Closed(t) && !t.comment && AllSpace(t.token)
    decreases |text|
  {
    hide MayFlush;
    if text != "" {
      ScanLeadingSpace(rules, Step(rules, s, text[0]).value, text[1..]);
    }
  }

  /** Trailing white space closes nothing. */
  lemma {:induction false} ClosedBeforeSpace(rules: Rules, s: Scanner, text: string)
    requires AllSpace(text) && Coherent(s)
    requires Scan(rules, s, text).Some? && Closed(Scan(rules, s, text).value)
    ensures Closed(s)
    decreases |text|
  {
    hide MayFlush;
    if text != "" {
      StepFlags(rules, s, text[0]);
      ClosedBeforeSpace(rules, Step(rules, s, text[0]).value, text[1..]);
    }
  }

  lemma TrimSplit(content: string) returns (before: string, after: string)
    ensures content == before + (TrimSpace(content) + after)
    ensures AllSpace(before) && AllSpace(after)
  {
    TrimLeftSpec(IsSpace, content);
    var rest := TrimLeft(IsSpace, content);
    TrimRightSpec(IsSpace, rest);
    before, after := content[..|content| - |rest|], rest[|TrimSpace(content)|..];
  }

  /** Trimming cannot leave a quote, a brace or a `${` open in accepted content. */
  lemma TrimmedIsClosed(rules: Rules, content: string)
    requires Accepts(rules, content) && Scan(rules, START, TrimSpace(content)).Some?
    ensures Closed(Scan(rules, START, TrimSpace(content)).value)
  {
    hide Step, TrimSpace, AllSpace, Scan, MayFlush;
    var before, after := TrimSplit(content);
    var text := TrimSpace(content);
    ScanAppend(rules, START, before, text + after);
    StartIsClosed();
    ScanLeadingSpace(rules, START, before);
    var s := Scan(rules, START, before).value;
    ScanAppend(rules, s, text, after);
    SpaceIsNoDollar(s.token);
    ScanShape(rules, s.token, START, s, text);
    ScanFlags(rules, s, text);
    ClosedBeforeSpace(rules, Scan(rules, s, text).value, after);
  }

  lemma StartIsClosed()
    ensures Closed(START) && AllSpace(START.token)
  {
  }

  lemma SpaceIsNoDollar(token: string)
    requires AllSpace(token)
    ensures SameToken(token, "", token)
  {
    assert token == token + "";
  }

  /** The end of the indented content decides: the line break after it flushes the last
      token. */
  lemma IndentedContentEnds(rules: Rules, content: string)
    requires Accepts(rules, content) && Scan(rules, START, Indent(content) + "\n").Some?
    ensures Accepts(rules, TrimSpace(content))
  {
    hide TrimSpace, MayFlush, Scan;
    var text := TrimSpace(content);
    IndentIsSpread(text);
    ScanAppend(rules, START, INDENT + Spread(text), "\n");
    ScanAppend(rules, START, INDENT, Spread(text));
    ScanBlank(rules, START, INDENT);
    assert Indented(START) == START by { SpreadOneLine(""); }
    ScanIndented(rules, START, text);
    TrimmedIsClosed(rules, content);
    var e := Scan(rules, START, text).value;
    ScanFlags(rules, START, text);
    ScanOne(rules, Indented(e), '\n', "");
    assert "\n" + "" == "\n";
    BreakEnds(rules, e);
  }

  lemma BreakEnds(rules: Rules, e: Scanner)
    requires Coherent(e) && Closed(e) && Step(rules, Indented(e), '\n').Some?
    ensures MayEnd(rules, e)
  {
    hide IsReserved, IsForbidden;
    FlushSpread(rules, e.token, e.directiveStart);
  }

  /** A stored fragment is read back as the comment, the content and the comment. */
  lemma FragmentScan(rules: Rules, value: CustomConfig)
    requires '\n' !in value.name && Scan(rules, START, Fragment(value)).Some?
    ensures Scan(rules, START, Indent(value.content) + "\n").Some?
  {
    hide Scan, Indent, Comment;
    var begin, end := Comment(" BEGIN CUSTOM: " + value.name), Comment(" END CUSTOM: " + value.name);
    ScanAppend(rules, START, begin + (Indent(value.content) + "\n"), end);
    ScanAppend(rules, START, begin, Indent(value.content) + "\n");
    ScanCommentLine(rules, START, " BEGIN CUSTOM: " + value.name);
  }

  /** For accepted content under a one-line name the fragment is accepted exactly when the
      trimmed content is: `ValidateCustom` sees the content before it is trimmed. */
  lemma FragmentAcceptedExactly(rules: Rules, value: CustomConfig)
    requires Accepts(rules, value.content) && '\n' !in value.name
    ensures Accepts(rules, Fragment(value)) <==> Accepts(rules, TrimSpace(value.content))
  {
    hide Fragment, TrimSpace, Composable;
    if Accepts(rules, TrimSpace(value.content)) {
      FragmentComposes(rules, value);
      ComposableIsAccepted(rules, Fragment(value));
    }
    if Accepts(rules, Fragment(value)) {
      FragmentScan(rules, value);
      IndentedContentEnds(rules, value.content);
    }
  }

  lemma {:induction false} EndBeforeBlanks(rules: Rules, s: Scanner, text: string)
    requires Coherent(s) && (forall i | 0 <= i < |text| :: IsBlank(text[i]))
    requires Scan(rules, s, text).Some? && MayEnd(rules, Scan(rules, s, text).value)
    ensures MayEnd(rules, s)
    decreases |text|
  {
    hide IsReserved, IsForbidden;
    if text != "" {
      assert IsBlank(text[0]);
      EndBeforeBlanks(rules, Step(rules, s, text[0]).value, text[1..]);
    }
  }

  /** Trimming keeps acceptance when the only white space is the scanner's own. */
  lemma TrimmedIsAccepted(rules: Rules, content: string)
    requires Accepts(rules, content) && (forall c | c in content && IsSpace(c) :: IsBlank(c))
    ensures Accepts(rules, TrimSpace(content))
  {
    hide Step, MayEnd, TrimSpace, Scan, IsBlank, IsSpace;
    var before, after := TrimSplit(content);
    var text := TrimSpace(content);
    assert forall c | c in before :: c in content;
    assert forall i | 0 <= i < |after| :: after[i] in content;
    ScanAppend(rules, START, before, text + after);
    ScanBlank(rules, START, before);
    ScanAppend(rules, START, text, after);
    ScanFlags(rules, START, text);
    EndBeforeBlanks(rules, Scan(rules, START, text).value, after);
  }

  lemma {:induction false} ContainedIsShorter(s: string, word: string)
    requires Contains(s, word)
    ensures |word| <= |s|
  {
    if !(word <= s) {
      ContainedIsShorter(s[1..], word);
    }
  }

  /** The condition on trimming is needed: "root" followed by a vertical tab is accepted as
      a token of its own, but the rendered fragment has the forbidden "root". */
  lemma TrimmingMatters()
    ensures Accepts(RULES, "root\U{0B}") && !Accepts(RULES, TrimSpace("root\U{0B}"))
  {
    RootTabIsAllowed();
    RootIsForbidden();
  }

  // ---------------------------------------------------------------- the assembled texts

  /** Where a configuration goes. */
  datatype Place = Http | Server | Repository(id: int) | Upstream(id: int)

  function PlaceOf(value: CustomConfig): Place {
    if value.context == "http" then Http
    else if value.context == "server" then Server
    else if value.context == "upstream" then Upstream(value.repositoryId)
    else Repository(value.repositoryId)
  }

  function TextAt(f: Fragments, place: Place): string {
    match place
    case Http => f.http
    case Server => f.server
    case Repository(id) => Lookup(f.byRepository, id)
    case Upstream(id) => Lookup(f.byUpstreamRepository, id)
  }

  function FragmentAt(value: CustomConfig, place: Place): string {
    if value.enabled && PlaceOf(value) == place then Fragment(value) else ""
  }

  /** The fragments of one place, in the order of the list. */
  function Assembled(values: seq<CustomConfig>, place: Place): string {
    if values == [] then "" else FragmentAt(values[0], place) + Assembled(values[1..], place)
  }

  /** What an enabled configuration must be for the list to be classified. */
  predicate Admissible(rules: Rules, value: CustomConfig) {
    && ValidName(value.name) && AcceptsCustom(rules, value.context, value.content)
    && (value.context == "http" || value.context == "server" ==> value.repositoryId == 0)
    && (value.context == "upstream" || value.context == "location" || value.context == "repository" ==>
       value.repositoryId > 0)
    && (value.context == "http" || value.context == "server" || value.context == "upstream" ||
       value.context == "location"
        || value.context == "repository")
  }

  lemma AddPlaces(rules: Rules, f: Fragments, value: CustomConfig, place: Place)
    ensures Add(rules, f, value).Some? <==> (value.enabled ==> Admissible(rules, value))
    ensures Add(rules, f, value).Some? ==>
              TextAt(Add(rules, f, value).value, place) == TextAt(f, place) + FragmentAt(value, place)
  {
    hide Fragment, ValidName, AcceptsCustom;
  }

  /** Every place gets exactly the fragments of its enabled configurations, in order, and
      the list is refused exactly when one of them is not admissible. */
  lemma {:induction false} ClassifyPlaces(rules: Rules, f: Fragments, values: seq<CustomConfig>, place: Place)
    ensures Classify(rules, f, values).Some? <==>
            forall value | value in values && value.enabled :: Admissible(rules, value)
    ensures Classify(rules, f, values).Some? ==>
              TextAt(Classify(rules, f, values).value, place) == TextAt(f, place) + Assembled(values, place)
    decreases |values|
  {
    hide Add, TextAt, Admissible, FragmentAt;
    if values == [] {
      assert TextAt(f, place) + Assembled(values, place) == TextAt(f, place);
    } else {
      AddPlaces(rules, f, values[0], place);
      assert values[0] in values && forall value | value in values[1..] :: value in values;
      assert forall value | value in values :: value == values[0] || value in values[1..];
      if Add(rules, f, values[0]).Some? {
        var g := Add(rules, f, values[0]).value;
        ClassifyPlaces(rules, g, values[1..], place);
        assert TextAt(f, place) + FragmentAt(values[0], place) + Assembled(values[1..], place) ==
               TextAt(f, place) + (FragmentAt(values[0], place) + Assembled(values[1..], place));
      }
    }
  }

  lemma {:induction false} AssembledAppend(a: seq<CustomConfig>, b: seq<CustomConfig>, place: Place)
    ensures Assembled(a + b, place) == Assembled(a, place) + Assembled(b, place)
  {
    hide FragmentAt;
    if a == [] {
      assert a + b == b;
    } else {
      assert (a + b)[1..] == a[1..] + b;
      AssembledAppend(a[1..], b, place);
    }
  }

  /** What the composition theorem asks of an enabled configuration. */
  predicate Placeable(rules: Rules, value: CustomConfig) {
    value.enabled ==> '\n' !in value.name && Accepts(rules, TrimSpace(value.content))
  }

  lemma EmptyComposes(rules: Rules)
    ensures Composable(rules, "")
  {
  }

  lemma {:induction false} AssembledComposes(rules: Rules, values: seq<CustomConfig>, place: Place)
    requires forall value | value in values :: Placeable(rules, value)
    ensures Composable(rules, Assembled(values, place))
    decreases |values|
  {
    hide Composable, Fragment, Accepts, PlaceOf;
    EmptyComposes(rules);
    if values != [] {
      assert values[0] in values && forall value | value in values[1..] :: value in values;
      if values[0].enabled {
        FragmentComposes(rules, values[0]);
      }
      AssembledComposes(rules, values[1..], place);
      ComposableAppend(rules, FragmentAt(values[0], place), Assembled(values[1..], place));
    }
  }

  /** Fragment composition, under the actual rules: every assembled text is accepted, and
      it splits after any number of configurations at a point where the scanner is settled:
      brace depth zero, no token, quote or comment open. */
  lemma AssembledTextsAreAccepted(values: seq<CustomConfig>, place: Place, k: nat)
    requires k <= |values| && forall value | value in values :: Placeable(RULES, value)
    requires Classify(RULES, NOTHING, values).Some?
    ensures var text := TextAt(Classify(RULES, NOTHING, values).value, place);
            && Accepts(RULES, text)
            && text == Assembled(values[..k], place) + Assembled(values[k..], place)
            && Scan(RULES, START, Assembled(values[..k], place)).Some?
            && Settled(Scan(RULES, START, Assembled(values[..k], place)).value)
  {
    hide RULES, Classify, Accepts, Placeable, Scan, Assembled;
    ClassifyPlaces(RULES, NOTHING, values, place);
    AssembledComposes(RULES, values, place);
    AssembledComposes(RULES, values[..k], place);
    ComposableIsAccepted(RULES, Assembled(values, place));
    assert values == values[..k] + values[k..];
    AssembledAppend(values[..k], values[k..], place);
    assert Settled(START);
    assert "" + Assembled(values, place) == Assembled(values, place);
  }

  /** Nowhere inside an accepted text does a closing brace escape its context. */
  lemma NoEscape(rules: Rules, text: string, k: nat)
    requires Accepts(rules, text) && k <= |text|
    ensures Scan(rules, START, text[..k]).Some? && Scan(rules, START, text[..k]).value.depth >= 0
  {
    hide Step, MayEnd;
    assert text == text[..k] + text[k..];
    ScanAppend(rules, START, text[..k], text[k..]);
    DepthNeverNegative(rules, START, text[..k]);
  }

  /** The condition on names is needed: a name is validated after trimming but written as
      it is, so a leading line break ends the comment. */
  lemma NamesMayBreakOut(rules: Rules, content: string)
    ensures ValidName("\n}") && !Accepts(rules, Fragment(CustomConfig("\n}", "http", 0, true, content)))
  {
    hide Scan, Indent, MayEnd, Fragment;
    BreakOutSplit(content);
    var after := "\n" + (Indent(content) + "\n" + Comment(" END CUSTOM: \n}"));
    ScanAppend(rules, START, Comment(" BEGIN CUSTOM: "), "}" + after);
    ScanCommentLine(rules, START, " BEGIN CUSTOM: ");
    ScanOne(rules, START, '}', after);
  }

  lemma BreakOutSplit(content: string)
    ensures Fragment(CustomConfig("\n}", "http", 0, true, content)) ==
            Comment(" BEGIN CUSTOM: ") + ("}" + ("\n" + (Indent(content) + "\n" + Comment(" END CUSTOM: \n}"))))
  {
    hide Indent;
    assert Comment(" BEGIN CUSTOM: " + "\n}") == Comment(" BEGIN CUSTOM: ") + ("}" + "\n");
    assert " END CUSTOM: " + "\n}" == " END CUSTOM: \n}";
  }

  predicate Plain(c: char) {
    c !in "#'\"\\{};" && !IsBlank(c)
  }

  lemma {:induction false} ScanPlain(rules: Rules, s: Scanner, text: string)
    requires s.quote.None? && !s.comment && forall i | 0 <= i < |text| :: Plain(text[i])
    ensures Scan(rules, s, text) == Some(s.(token := s.token + text))
    decreases |text|
  {
    if text == "" {
      assert s.token + text == s.token;
    } else {
      assert Plain(text[0]);
      assert s.token + [text[0]] + text[1..] == s.token + text;
      ScanPlain(rules, s.(token := s.token + [text[0]]), text[1..]);
    }
  }

  lemma RootTabIsAllowed()
    ensures Accepts(RULES, "root\U{0B}")
  {
    hide RULES, IsReserved, IsForbidden, Scan;
    ScanPlain(RULES, START, "root\U{0B}");
    RootTabIsFree();
    assert START.token + "root\U{0B}" == "root\U{0B}";
  }

  lemma RootTabIsFree()
    ensures !IsReserved(RULES, "root\U{0B}") && !IsForbidden(RULES, "root\U{0B}")
  {
    hide Contains, Unbroken;
    var text := "root\U{0B}";
    assert ToLower(text) == text && WithoutBraces(text) == text;
    forall word | word in RULES.reserved ensures !Contains(text, word) {
      if Contains(text, word) { ContainedIsShorter(text, word); }
    }
    TabbedIsBroken(text, 4);
  }

  lemma TabbedIsBroken(text: string, k: nat)
    requires k < |text| && text[k] == '\U{0B}'
    ensures !Unbroken(text)
  {
  }

  lemma RootIsForbidden()
    ensures !Accepts(RULES, TrimSpace("root\U{0B}"))
  {
    hide RULES, IsReserved, IsForbidden, Scan;
    assert TrimSpace("root\U{0B}") == "root";
    ScanPlain(RULES, START, "root");
    assert START.token + "root" == "root";
    RootIsListed();
  }

  lemma RootIsListed()
    ensures IsForbidden(RULES, "root")
  {
    assert ToLower("root") == "root" && BLOCK_WORDS[0] == "root";
  }
}
