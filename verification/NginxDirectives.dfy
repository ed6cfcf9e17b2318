/** What the custom fragment scanner accepts, told without the scanner. */
module NginxDirectives {
  import opened Text
  import opened NginxFragments

  // ---------------------------------------------------------------- words

  /** Not the name of a directive that is kept for generated configuration. */
  predicate Allowed(word: string) {
    ToLower(word) !in FORBIDDEN_WORDS && !("proxy_ssl_" <= ToLower(word))
  }

  predicate Occurs(part: string, text: string) {
    exists i | 0 <= i <= |text| :: part <= text[i..]
  }

  /** No generated name occurs in the word, not even around braces. */
  predicate Harmless(word: string) {
    forall name | name in RESERVED_WORDS :: !Occurs(name, WithoutBraces(ToLower(word)))
  }

  lemma {:induction false} ContainsExactly(text: string, part: string)
    ensures Contains(text, part) <==> Occurs(part, text)
  {
    assert text[0..] == text;
    if text != "" && !(part <= text) {
      ContainsExactly(text[1..], part);
      if i :| 0 <= i <= |text| - 1 && part <= text[1..][i..] {
        assert text[1..][i..] == text[i + 1..];
      }
      if i :| 0 < i <= |text| && part <= text[i..] {
        assert text[1..][i - 1..] == text[i..];
      }
    }
  }

  lemma {:induction false} WithoutBracesAround(before: string, c: char, after: string)
    ensures WithoutBraces(before + [c] + after) ==
            WithoutBraces(before) + (if c == '{' || c == '}' then "" else [c]) + WithoutBraces(after)
  {
    WithoutBracesAppend(before + [c], after);
    WithoutBracesAppend(before, [c]);
    assert [c][1..] == "";
  }

  /** The check of one token. */
  lemma MayFlushExactly(word: string, start: bool)
    requires word != ""
    ensures MayFlush(RULES, word, start) <==> Harmless(word) && (start ==> Allowed(word))
  {
    hide FORBIDDEN_WORDS, RESERVED_WORDS, Contains, Occurs;
    forall name | name in RESERVED_WORDS
      ensures Contains(WithoutBraces(ToLower(word)), name) <==> Occurs(name, WithoutBraces(ToLower(word)))
    {
      ContainsExactly(WithoutBraces(ToLower(word)), name);
    }
    assert RULES.prefixes == ["proxy_ssl_"] && RULES.prefixes[0] in RULES.prefixes;
    assert forall prefix | prefix in RULES.prefixes :: prefix == "proxy_ssl_";
    assert RULES.reserved == RESERVED_WORDS && RULES.forbidden == FORBIDDEN_WORDS;
  }

  // ---------------------------------------------------------------- plain texts

  datatype Token = Word(text: string) | Mark(c: char)

  predicate IsDelimiter(c: char) {
    c == ' ' || c == '\t' || c == '\r' || c == '\n' || c == ';' || c == '{' || c == '}'
  }

  function WordLength(text: string): (n: nat)
    ensures n <= |text|
  {
    if text == "" || IsDelimiter(text[0]) then 0 else 1 + WordLength(text[1..])
  }

  /** The words, semicolons and braces of a text. */
  function Tokens(text: string): seq<Token>
    decreases |text|
  {
    if text == "" then []
    else if text[0] == ';' || text[0] == '{' || text[0] == '}' then [Mark(text[0])] + Tokens(text[1..])
    else if IsDelimiter(text[0]) then Tokens(text[1..])
    else [Word(text[..WordLength(text)])] + Tokens(text[WordLength(text)..])
  }

  /** Neither quotes, comments, backslashes nor braces around a variable name. */
  predicate IsPlainText(text: string) {
    forall i | 0 <= i < |text| ::
      text[i] != '#' && text[i] != '\'' && text[i] != '"' && text[i] != '\\' &&
      (text[i] == '$' && i + 1 < |text| ==> text[i + 1] != '{')
  }

  function Braces(tokens: seq<Token>): int {
    if tokens == [] then 0
    else
      var last := tokens[|tokens| - 1];
      Braces(tokens[..|tokens| - 1]) + if last == Mark('{') then 1 else if last == Mark('}') then -1 else 0
  }

  /** If token `k` is a word, no generated name occurs in it, and if it begins a directive (at the
      start of a directive's text, or after a semicolon or brace) it is allowed. */
  predicate WordPasses(start: bool, tokens: seq<Token>, k: nat)
    requires k < |tokens|
  {
    tokens[k].Word? ==>
      Harmless(tokens[k].text) && ((if k == 0 then start else tokens[k - 1].Mark?) ==> Allowed(tokens[k].text))
  }

  predicate WordsPass(tokens: seq<Token>) {
    forall k | 0 <= k < |tokens| :: WordPasses(true, tokens, k)
  }

  predicate BracesMatch(tokens: seq<Token>) {
    Braces(tokens) == 0 && forall k | 0 <= k <= |tokens| :: Braces(tokens[..k]) >= 0
  }

  /** The text from here on is accepted. */
  predicate Passes(s: Scanner, text: string) {
    Scan(RULES, s, text).Some? && MayEnd(RULES, Scan(RULES, s, text).value)
  }

  function Between(depth: int, start: bool): Scanner {
    Scanner(depth, start, "", None, false, false, false)
  }

  /** The same walk over tokens. */
  predicate WordsFine(start: bool, tokens: seq<Token>)
    decreases |tokens|
  {
    tokens == [] ||
    (&& (tokens[0].Word? ==> Harmless(tokens[0].text) && (start ==> Allowed(tokens[0].text)))
     && WordsFine(tokens[0].Mark?, tokens[1..]))
  }

  function Change(token: Token): int {
    if token == Mark('{') then 1 else if token == Mark('}') then -1 else 0
  }

  predicate BracesFine(depth: int, tokens: seq<Token>)
    decreases |tokens|
  {
    if tokens == [] then depth == 0
    else depth + Change(tokens[0]) >= 0 && BracesFine(depth + Change(tokens[0]), tokens[1..])
  }

  lemma PassesOne(s: Scanner, c: char, text: string)
    ensures Passes(s, [c] + text) <==> Step(RULES, s, c).Some? && Passes(Step(RULES, s, c).value, text)
  {
    hide Step, MayEnd, RULES;
    ScanOne(RULES, s, c, text);
  }

  lemma PassesMark(depth: int, start: bool, c: char, text: string)
    requires c == ';' || c == '{' || c == '}'
    ensures var after := depth + if c == '{' then 1 else if c == '}' then -1 else 0;
            Passes(Between(depth, start), [c] + text) <==>
                (c == '}' ==> after >= 0) && Passes(Between(after, true), text)
  {
    hide Passes, RULES;
    PassesOne(Between(depth, start), c, text);
  }

  lemma PassesBlank(depth: int, start: bool, c: char, text: string)
    requires c == ' ' || c == '\t' || c == '\r' || c == '\n'
    ensures Passes(Between(depth, start), [c] + text) <==> Passes(Between(depth, start), text)
  {
    hide Passes, RULES;
    PassesOne(Between(depth, start), c, text);
  }

  /** A delimiter after a word checks the word. */
  lemma StepAfterWord(depth: int, start: bool, word: string, c: char)
    requires word != "" && IsDelimiter(c) && (c == '{' ==> !EndsInDollar(word))
    ensures Step(RULES, Between(depth, start).(token := word), c) ==
            if MayFlush(RULES, word, start) then Step(RULES, Between(depth, false), c) else None
  {
    hide MayFlush, RULES;
  }

  lemma PassesWord(depth: int, start: bool, word: string, text: string)
    requires word != "" && (forall i | 0 <= i < |word| :: Plain(word[i]))
    requires text != "" ==> IsDelimiter(text[0]) && (text[0] == '{' ==> !EndsInDollar(word))
    ensures Passes(Between(depth, start), word + text) <==>
            MayFlush(RULES, word, start) && Passes(Between(depth, false), text)
  {
    hide MayFlush, RULES, Plain, Step;
    var inside := Between(depth, start).(token := word);
    ScanAppend(RULES, Between(depth, start), word, text);
    ScanPlain(RULES, Between(depth, start), word);
    assert "" + word == word;
    if text == "" {
      NothingToCheck();
    } else {
      assert text == [text[0]] + text[1..];
      PassesOne(inside, text[0], text[1..]);
      PassesOne(Between(depth, false), text[0], text[1..]);
      StepAfterWord(depth, start, word, text[0]);
    }
  }

  lemma NothingToCheck()
    ensures MayFlush(RULES, "", false)
  {
  }

  lemma {:induction false} WordLengthSpec(text: string)
    ensures forall i | 0 <= i < WordLength(text) :: !IsDelimiter(text[i])
    ensures WordLength(text) < |text| ==> IsDelimiter(text[WordLength(text)])
  {
    if text != "" && !IsDelimiter(text[0]) {
      WordLengthSpec(text[1..]);
      assert forall i | 0 < i < WordLength(text) :: text[i] == text[1..][i - 1];
    }
  }

  lemma PlainSuffix(text: string, n: nat)
    requires IsPlainText(text) && n <= |text|
    ensures IsPlainText(text[n..])
  {
  }

  lemma FineFirst(depth: int, start: bool, token: Token, rest: seq<Token>)
    ensures WordsFine(start, [token] + rest) <==>
            (token.Word? ==> Harmless(token.text) && (start ==> Allowed(token.text))) && WordsFine(token.Mark?, rest)
    ensures BracesFine(depth, [token] + rest) <==>
            depth + Change(token) >= 0 && BracesFine(depth + Change(token), rest)
  {
    hide Harmless, Allowed, Change;
    assert ([token] + rest)[1..] == rest;
  }

  lemma TokensFirst(text: string)
    requires text != ""
    ensures Tokens(text) ==
            if text[0] == ';' || text[0] == '{' || text[0] == '}' then [Mark(text[0])] + Tokens(text[1..])
            else if IsDelimiter(text[0]) then Tokens(text[1..])
            else [Word(text[..WordLength(text)])] + Tokens(text[WordLength(text)..])
  {
  }

  lemma {:induction false} PassesTokens(depth: int, start: bool, text: string)
    requires IsPlainText(text) && depth >= 0
    ensures Passes(Between(depth, start), text) <==> WordsFine(start, Tokens(text)) && BracesFine(depth, Tokens(text))
    decreases |text|
  {
    hide Passes, Harmless, Allowed, IsPlainText, MayFlush, RULES, Tokens, WordsFine, BracesFine, Between;
    if text == "" {
      PassesNothing(depth, start);
    } else {
      TokensFirst(text);
      if IsDelimiter(text[0]) {
        PlainSuffix(text, 1);
        assert text == [text[0]] + text[1..];
        if text[0] == ';' || text[0] == '{' || text[0] == '}' {
          var after := depth + Change(Mark(text[0]));
          PassesMark(depth, start, text[0], text[1..]);
          FineFirst(depth, start, Mark(text[0]), Tokens(text[1..]));
          if after >= 0 { PassesTokens(after, true, text[1..]); }
        } else {
          PassesBlank(depth, start, text[0], text[1..]);
          PassesTokens(depth, start, text[1..]);
        }
      } else {
        var n := WordLength(text);
        WordStands(text);
        PlainSuffix(text, n);
        MayFlushExactly(text[..n], start);
        PassesWord(depth, start, text[..n], text[n..]);
        FineFirst(depth, start, Word(text[..n]), Tokens(text[n..]));
        assert text == text[..n] + text[n..];
        PassesTokens(depth, false, text[n..]);
      }
    }
  }

  lemma PassesNothing(depth: int, start: bool)
    ensures Passes(Between(depth, start), "") <==> depth == 0
    ensures Tokens("") == [] && WordsFine(start, []) && (BracesFine(depth, []) <==> depth == 0)
  {
  }

  lemma WordStands(text: string)
    requires IsPlainText(text) && text != "" && !IsDelimiter(text[0])
    ensures var n := WordLength(text);
            && n > 0 && (forall i | 0 <= i < n :: Plain(text[..n][i]))
            && (n < |text| ==> IsDelimiter(text[n]) && (text[n] == '{' ==> !EndsInDollar(text[..n])))
  {
    WordLengthSpec(text);
    var n := WordLength(text);
    forall i | 0 <= i < n ensures Plain(text[..n][i]) {
      assert text[..n][i] == text[i] && !IsDelimiter(text[i]);
    }
    assert n < |text| && text[n] == '{' ==> text[n - 1] != '$';
  }

  lemma {:induction false} WordsFineExactly(start: bool, tokens: seq<Token>)
    ensures WordsFine(start, tokens) <==> forall k | 0 <= k < |tokens| :: WordPasses(start, tokens, k)
    decreases |tokens|
  {
    hide Harmless, Allowed;
    if tokens != [] {
      var rest, begins := tokens[1..], tokens[0].Mark?;
      WordsFineExactly(begins, rest);
      forall k | 0 < k < |tokens| ensures WordPasses(start, tokens, k) <==> WordPasses(begins, rest, k - 1) {
        assert tokens[k] == rest[k - 1] && (k > 1 ==> tokens[k - 1] == rest[k - 2]);
      }
      if forall k | 0 <= k < |tokens| :: WordPasses(start, tokens, k) {
        assert WordPasses(start, tokens, 0);
        forall k | 0 <= k < |rest| ensures WordPasses(begins, rest, k) {
          assert WordPasses(start, tokens, k + 1);
        }
      }
    }
  }

  lemma {:induction false} BracesFineExactly(depth: int, tokens: seq<Token>)
    requires depth >= 0
    ensures BracesFine(depth, tokens) <==>
            depth + Braces(tokens) == 0 && forall k | 0 <= k <= |tokens| :: depth + Braces(tokens[..k]) >= 0
    decreases |tokens|
  {
    hide Change;
    assert tokens[..|tokens|] == tokens && tokens[..0] == [];
    if tokens != [] {
      var rest, after := tokens[1..], depth + Change(tokens[0]);
      assert rest[..|rest|] == rest && rest[..0] == [];
      forall k | 1 <= k <= |tokens| ensures Braces(tokens[..k]) == Change(tokens[0]) + Braces(rest[..k - 1]) {
        BracesFirst(tokens, k);
      }
      assert Braces(tokens[..1]) == Change(tokens[0]);
      if after >= 0 {
        BracesFineExactly(after, rest);
        assert forall k | 0 <= k <= |rest| :: Braces(tokens[..k + 1]) == Change(tokens[0]) + Braces(rest[..k]);
      }
    }
  }

  lemma {:induction false} BracesFirst(tokens: seq<Token>, k: nat)
    requires 1 <= k <= |tokens|
    ensures Braces(tokens[..k]) == Change(tokens[0]) + Braces(tokens[1..][..k - 1])
    decreases k
  {
    assert tokens[..k][..k - 1] == tokens[..k - 1];
    if k > 1 {
      BracesFirst(tokens, k - 1);
      assert tokens[1..][..k - 1][..k - 2] == tokens[1..][..k - 2];
      assert tokens[1..][..k - 1][k - 2] == tokens[k - 1];
    } else {
      assert tokens[..1] == [tokens[0]] && [tokens[0]][..0] == [] && tokens[1..][..0] == [];
    }
  }

  /** A plain text is accepted exactly when no generated name occurs in any word, no word that
      begins a directive is forbidden, and the braces match. */
  lemma PlainTextsExactly(text: string)
    requires IsPlainText(text)
    ensures Accepts(RULES, text) <==> WordsPass(Tokens(text)) && BracesMatch(Tokens(text))
  {
    hide Harmless, Allowed, Tokens, MayEnd, Scan, IsPlainText;
    PassesTokens(0, true, text);
    WordsFineExactly(true, Tokens(text));
    BracesFineExactly(0, Tokens(text));
  }

  // ---------------------------------------------------------------- anywhere in a text

  /** After `before` no quote, comment or variable brace is open. */
  predicate IsOutside(before: string) {
    Scan(RULES, START, before).Some? &&
    var s := Scan(RULES, START, before).value; s.quote.None? && !s.comment && !s.variableBrace && !EndsInDollar(s.token)
  }

  lemma AcceptsFrom(before: string, after: string)
    requires Scan(RULES, START, before).Some?
    ensures Accepts(RULES, before + after) <==> Passes(Scan(RULES, START, before).value, after)
  {
    hide RULES, MayEnd, Scan;
    ScanAppend(RULES, START, before, after);
  }

  /** The scanner never has an escape open outside quotes. */
  lemma OutsideIsClean(before: string)
    requires IsOutside(before)
    ensures !Scan(RULES, START, before).value.escaped
  {
    hide RULES, Scan;
    ScanFlags(RULES, START, before);
  }

  /** Wherever a word stands in an accepted text outside quotes and comments, no generated name
      occurs in it; and directly after a semicolon or brace it is no forbidden directive. */
  lemma WordsAreChecked(before: string, mark: char, blanks: string, word: string, after: string)
    requires IsOutside(before) && IsDelimiter(mark)
    requires forall c | c in blanks :: c == ' ' || c == '\t' || c == '\r' || c == '\n'
    requires word != "" && (forall i | 0 <= i < |word| :: Plain(word[i])) && !EndsInDollar(word)
    requires after == "" || IsDelimiter(after[0]) || after[0] == '#'
    requires Accepts(RULES, before + ([mark] + (blanks + (word + after))))
    ensures Harmless(word)
    ensures mark == ';' || mark == '{' || mark == '}' ==> Allowed(word)
  {
    hide RULES, Scan, MayEnd, Plain, Harmless, Allowed, MayFlush;
    var s := Scan(RULES, START, before).value;
    AcceptsFrom(before, [mark] + (blanks + (word + after)));
    OutsideIsClean(before);
    PassesOne(s, mark, blanks + (word + after));
    var between := Step(RULES, s, mark).value;
    AfterMark(s, mark);
    ScanAppend(RULES, between, blanks, word + after);
    ScanBlank(RULES, between, blanks);
    WordIsChecked(between, word, after);
    MayFlushExactly(word, between.directiveStart);
  }

  lemma AfterMark(s: Scanner, mark: char)
    requires IsDelimiter(mark) && s.quote.None? && !s.comment && !s.variableBrace && !s.escaped
    requires !EndsInDollar(s.token) && Step(RULES, s, mark).Some?
    ensures var between := Step(RULES, s, mark).value;
            && between == Between(between.depth, between.directiveStart)
            && (mark == ';' || mark == '{' || mark == '}' ==> between.directiveStart)
  {
    hide RULES, MayFlush;
  }

  lemma WordIsChecked(s: Scanner, word: string, after: string)
    requires s == Between(s.depth, s.directiveStart)
    requires word != "" && (forall i | 0 <= i < |word| :: Plain(word[i])) && !EndsInDollar(word)
    requires after == "" || IsDelimiter(after[0]) || after[0] == '#'
    requires Passes(s, word + after)
    ensures MayFlush(RULES, word, s.directiveStart)
  {
    hide RULES, Plain, MayFlush;
    ScanAppend(RULES, s, word, after);
    ScanPlain(RULES, s, word);
    assert "" + word == word;
    if after != "" {
      assert after == [after[0]] + after[1..];
      PassesOne(s.(token := word), after[0], after[1..]);
    }
  }

  /** The same for the first word of a text. */
  lemma FirstWordIsChecked(blanks: string, word: string, after: string)
    requires forall c | c in blanks :: c == ' ' || c == '\t' || c == '\r' || c == '\n'
    requires word != "" && (forall i | 0 <= i < |word| :: Plain(word[i])) && !EndsInDollar(word)
    requires after == "" || IsDelimiter(after[0]) || after[0] == '#'
    requires Accepts(RULES, blanks + (word + after))
    ensures Harmless(word) && Allowed(word)
  {
    hide RULES, Scan, MayEnd, Plain, Harmless, Allowed, MayFlush;
    ScanAppend(RULES, START, blanks, word + after);
    ScanBlank(RULES, START, blanks);
    WordIsChecked(START, word, after);
    MayFlushExactly(word, true);
  }

  /** A comment is worth the line break that ends it. */
  lemma CommentsAreErased(before: string, comment: string, after: string)
    requires IsOutside(before) && '\n' !in comment
    ensures Accepts(RULES, before + (("#" + comment + "\n") + after)) <==> Accepts(RULES, before + ("\n" + after))
  {
    hide RULES, Scan, MayEnd, Flush;
    var s := Scan(RULES, START, before).value;
    AcceptsFrom(before, ("#" + comment + "\n") + after);
    AcceptsFrom(before, "\n" + after);
    assert ("#" + comment + "\n") + after == ['#'] + (comment + (['\n'] + after));
    PassesOne(s, '#', comment + (['\n'] + after));
    PassesOne(s, '\n', after);
    if Step(RULES, s, '#').Some? {
      var inside := Step(RULES, s, '#').value;
      InComment(inside, comment);
      ScanAppend(RULES, inside, comment, ['\n'] + after);
      PassesOne(inside, '\n', after);
    }
    SameFlush(s);
  }

  /** A comment mark and a line break check the token alike. */
  lemma SameFlush(s: Scanner)
    requires s.quote.None? && !s.comment
    ensures Step(RULES, s, '#').Some? <==> Step(RULES, s, '\n').Some?
    ensures Step(RULES, s, '#').Some? ==>
              var inside := Step(RULES, s, '#').value;
              inside.comment && Step(RULES, inside, '\n') == Step(RULES, s, '\n')
  {
    hide RULES, MayFlush;
  }

  lemma {:induction false} InComment(s: Scanner, comment: string)
    requires s.comment && '\n' !in comment
    ensures Scan(RULES, s, comment) == Some(s)
  {
    hide RULES;
    if comment != "" {
      InComment(s, comment[1..]);
    }
  }

  /** Quoted characters belong to the token around them, whatever they are. */
  lemma QuotedTextIsOneToken(s: Scanner, mark: char, text: string)
    requires s.quote.None? && !s.comment && (mark == '"' || mark == '\'')
    requires mark !in text && '\\' !in text && !s.escaped
    ensures Scan(RULES, s, [mark] + (text + [mark])) == Some(s.(token := s.token + text))
  {
    hide RULES;
    var inside := s.(quote := Some(mark));
    ScanOne(RULES, s, mark, text + [mark]);
    ScanAppend(RULES, inside, text, [mark]);
    InQuotes(inside, text);
    ScanOne(RULES, inside.(token := s.token + text), mark, "");
    assert [mark] + "" == [mark];
  }

  lemma {:induction false} InQuotes(s: Scanner, text: string)
    requires s.quote.Some? && !s.comment && !s.escaped && s.quote.value !in text && '\\' !in text
    ensures Scan(RULES, s, text) == Some(s.(token := s.token + text))
    decreases |text|
  {
    hide RULES;
    if text == "" {
      assert s.token + "" == s.token;
    } else {
      InQuotes(s.(token := s.token + [text[0]]), text[1..]);
      assert s.token + [text[0]] + text[1..] == s.token + text;
    }
  }

  /** A backslash in quotes makes the next character part of the token. */
  lemma EscapedCharacter(s: Scanner, c: char)
    requires s.quote.Some? && !s.comment && !s.escaped
    ensures Scan(RULES, s, ['\\', c]) == Some(s.(token := s.token + [c]))
  {
    hide RULES;
    ScanOne(RULES, s, '\\', [c]);
    ScanOne(RULES, s.(escaped := true), c, "");
    assert ['\\'] + [c] == ['\\', c] && [c] + "" == [c];
  }

  /** Nothing unfinished is accepted: a quote without its end, or a backslash outside quotes. */
  lemma UnfinishedIsRefused(before: string, mark: char, text: string)
    requires IsOutside(before) && (mark == '"' || mark == '\'') && mark !in text && '\\' !in text
    ensures !Accepts(RULES, before + ([mark] + text))
    ensures !Accepts(RULES, before + (['\\'] + text))
  {
    hide RULES, Scan, MayFlush;
    var s := Scan(RULES, START, before).value;
    OutsideIsClean(before);
    AcceptsFrom(before, [mark] + text);
    AcceptsFrom(before, ['\\'] + text);
    PassesOne(s, '\\', text);
    PassesOne(s, mark, text);
    InQuotes(s.(quote := Some(mark)), text);
  }

  /** A variable in braces is part of its token and opens no block. */
  lemma VariableIsOneToken(s: Scanner, name: string)
    requires s.quote.None? && !s.comment && !s.variableBrace && forall i | 0 <= i < |name| :: Plain(name[i])
    ensures Scan(RULES, s, "${" + (name + "}")) == Some(s.(token := s.token + "${" + name + "}"))
  {
    hide RULES, Step, Plain;
    var open := s.(token := s.token + "${", variableBrace := true);
    VariableSteps(s, name);
    VariableOpens(s, open);
    ScanAppend(RULES, s, "${", name + "}");
    ScanAppend(RULES, open, name, "}");
    ScanPlain(RULES, open, name);
    VariableCloses(open.(token := s.token + "${" + name), s.(token := s.token + "${" + name + "}"));
  }

  lemma VariableOpens(s: Scanner, open: Scanner)
    requires Step(RULES, s, '$') == Some(s.(token := s.token + "$"))
    requires Step(RULES, s.(token := s.token + "$"), '{') == Some(open)
    ensures Scan(RULES, s, "${") == Some(open)
  {
    hide RULES, Step;
    ScanOne(RULES, s, '$', "{");
    ScanOne(RULES, s.(token := s.token + "$"), '{', "");
    assert ['$'] + "{" == "${" && ['{'] + "" == "{";
  }

  lemma VariableCloses(inside: Scanner, after: Scanner)
    requires Step(RULES, inside, '}') == Some(after)
    ensures Scan(RULES, inside, "}") == Some(after)
  {
    hide RULES, Step;
    ScanOne(RULES, inside, '}', "");
    assert ['}'] + "" == "}";
  }

  lemma VariableSteps(s: Scanner, name: string)
    requires s.quote.None? && !s.comment && !s.variableBrace
    ensures var dollar := s.(token := s.token + "$");
            var open := s.(token := s.token + "${", variableBrace := true);
            && Step(RULES, s, '$') == Some(dollar) && Step(RULES, dollar, '{') == Some(open)
            && Step(RULES, open.(token := s.token + "${" + name), '}') ==
               Some(s.(token := s.token + "${" + name + "}"))
  {
    hide RULES, Flush;
    assert s.token + "$" + ['{'] == s.token + "${";
  }

  // ---------------------------------------------------------------- one configuration

  /** The text that is rendered for one configuration. */
  lemma FragmentExactly(value: CustomConfig)
    ensures Fragment(value) ==
            "        # BEGIN CUSTOM: " + value.name + "\n" + (Indent(value.content) + "\n") +
            ("        # END CUSTOM: " + value.name + "\n")
  {
    hide Indent;
    CommentExactly(" BEGIN CUSTOM: ", value.name);
    CommentExactly(" END CUSTOM: ", value.name);
    assert "        #" + " BEGIN CUSTOM: " == "        # BEGIN CUSTOM: ";
    assert "        #" + " END CUSTOM: " == "        # END CUSTOM: ";
  }

  lemma CommentExactly(title: string, name: string)
    ensures Comment(title + name) == "        #" + title + name + "\n"
  {
  }

  /** A configuration is admitted for its place: server-wide contexts belong to no repository, the
      others to one; the name has 1 to 100 visible characters, the content at most 1 MiB. */
  lemma AdmittedExactly(value: CustomConfig)
    ensures Admissible(RULES, value) <==>
            var name := TrimSpace(value.name);
            && 1 <= |name| <= 100 && '\0' !in name && '\r' !in name && '\n' !in name
            && |value.content| <= 1024 * 1024 && '\0' !in value.content && Accepts(RULES, value.content)
            && (|| (value.context in {"http", "server"} && value.repositoryId == 0)
                || (value.context in {"upstream", "location", "repository"} && value.repositoryId > 0))
  {
    hide RULES, Scan, MayEnd, TrimSpace, ToLower;
    ContextsAreNormal();
  }

  lemma ContextsAreNormal()
    ensures ToLower(TrimSpace("http")) == "http" && ToLower(TrimSpace("server")) == "server"
    ensures ToLower(TrimSpace("upstream")) == "upstream" && ToLower(TrimSpace("location")) == "location"
    ensures ToLower(TrimSpace("repository")) == "repository"
  {
    hide ToLower, TrimSpace;
    LowerCaseStays("http");
    LowerCaseStays("server");
    LowerCaseStays("upstream");
    LowerCaseStays("location");
    LowerCaseStays("repository");
  }

  lemma LowerCaseStays(word: string)
    requires forall i | 0 <= i < |word| :: 'a' <= word[i] <= 'z'
    ensures ToLower(TrimSpace(word)) == word
  {
    TrimTrimmed(IsSpace, word);
  }
}
