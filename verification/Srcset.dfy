/** The `srcset` attribute: its parser, its printer, and the rewriting of its URLs
    ("Parsing a srcset attribute" in the WHATWG HTML Standard). */
module Srcset {
  import opened Text

  datatype Candidate = Candidate(url: string, descriptor: string)

  predicate IsHtmlSpace(c: char) {
    c == ' ' || c == '\t' || c == '\n' || c == '\r' || c == '\U{0C}'
  }

  predicate IsSeparator(c: char) {
    IsHtmlSpace(c) || c == ','
  }

  /** The length of the URL token at the front: up to the first white space. */
  function UrlEnd(s: string): (n: nat)
    ensures n <= |s|
  {
    if s == "" || IsHtmlSpace(s[0]) then 0 else 1 + UrlEnd(s[1..])
  }

  function Nest(c: char, depth: nat): nat {
    if c == '(' then depth + 1 else if c == ')' && depth > 0 then depth - 1 else depth
  }

  /** The length of the descriptor at the front: up to the first comma outside
      parentheses. */
  function DescriptorEnd(s: string, depth: nat): (n: nat)
    ensures n <= |s|
  {
    if s == "" || (s[0] == ',' && depth == 0) then 0 else 1 + DescriptorEnd(s[1..], Nest(s[0], depth))
  }

  /** The parenthesis depth after scanning all of `s`. */
  function Depth(s: string, depth: nat): nat {
    if s == "" then depth else Depth(s[1..], Nest(s[0], depth))
  }

  function Tail(s: string, n: nat): string
    requires n <= |s|
  {
    if n < |s| then s[n + 1..] else ""
  }

  /** The URL of a token: without the commas at its end, trimmed. */
  function Stripped(token: string): string {
    TrimSpace(TrimRight(IsComma, token))
  }

  /** The candidate at the front (none if its URL is blank) and what is left. */
  function Next(s: string): (r: (seq<Candidate>, string))
    requires UrlEnd(s) > 0
    ensures |r.1| < |s|
  {
    var token, rest := s[..UrlEnd(s)], s[UrlEnd(s)..];
    var url := Stripped(token);
    if url == "" then ([], rest)
    else if token[|token| - 1] == ',' then ([Candidate(url, "")], rest)
    else
      var text := TrimLeft(IsHtmlSpace, rest);
      var n := DescriptorEnd(text, 0);
      ([Candidate(url, TrimSpace(text[..n]))], Tail(text, n))
  }

  function Parse(value: string): seq<Candidate>
    decreases |value|
  {
    var s := TrimLeft(IsSeparator, value);
    if UrlEnd(s) == 0 then [] else Next(s).0 + Parse(Next(s).1)
  }

  function RenderCandidate(c: Candidate): string {
    if c.descriptor == "" then c.url else c.url + " " + c.descriptor
  }

  function RenderAll(candidates: seq<Candidate>): seq<string> {
    if candidates == [] then [] else [RenderCandidate(candidates[0])] + RenderAll(candidates[1..])
  }

  function Render(candidates: seq<Candidate>): string {
    Join(RenderAll(candidates), ", ")
  }

  // ---------------------------------------------------------------- rewriting

  /** `data:` URLs and URLs the mapper declines stay. */
  function MapUrl(mapper: string -> Option<string>, url: string): Option<string> {
    if "data:" <= ToLower(url) then None else mapper(url)
  }

  function MapCandidate(mapper: string -> Option<string>, c: Candidate): Candidate {
    match MapUrl(mapper, c.url)
    case None => c
    case Some(url) => c.(url := url)
  }

  function MapAll(mapper: string -> Option<string>, candidates: seq<Candidate>): seq<Candidate> {
    seq(|candidates|, i requires 0 <= i < |candidates| => MapCandidate(mapper, candidates[i]))
  }

  predicate Changes(mapper: string -> Option<string>, candidates: seq<Candidate>) {
    exists i | 0 <= i < |candidates| :: MapUrl(mapper, candidates[i].url).Some?
  }

  // ---------------------------------------------------------------- what can be printed

  /** A URL as the parser yields it. */
  predicate ParsedUrl(url: string) {
    url != "" && Trimmed(IsSpace, url) && forall c | c in url :: !IsHtmlSpace(c)
  }

  predicate CommaLed(url: string) {
    url != "" && url[0] == ','
  }

  predicate CommaEnded(url: string) {
    url != "" && url[|url| - 1] == ','
  }

  /** A descriptor that reads back whole: trimmed, and no comma outside parentheses. */
  predicate PrintableDescriptor(d: string) {
    Trimmed(IsSpace, d) && DescriptorEnd(d, 0) == |d|
  }

  /** Candidates as the parser yields them: only the last descriptor may leave a parenthesis open. */
  predicate Parsed(candidates: seq<Candidate>) {
    candidates == [] ||
    (&& ParsedUrl(candidates[0].url) && PrintableDescriptor(candidates[0].descriptor)
     && (|candidates| > 1 ==> Depth(candidates[0].descriptor, 0) == 0)
     && Parsed(candidates[1..]))
  }

  /** No URL begins or ends with a comma. */
  predicate NoOuterCommas(candidates: seq<Candidate>) {
    forall c | c in candidates :: !CommaLed(c.url) && !CommaEnded(c.url)
  }

  predicate Printable(candidates: seq<Candidate>) {
    Parsed(candidates) && NoOuterCommas(candidates)
  }

  // ---------------------------------------------------------------- scanning a concatenation

  lemma {:induction false} UrlEndOf(url: string, tail: string)
    requires forall c | c in url :: !IsHtmlSpace(c)
    requires tail == "" || IsHtmlSpace(tail[0])
    ensures UrlEnd(url + tail) == |url|
  {
    if url == "" {
      assert url + tail == tail;
    } else {
      assert (url + tail)[1..] == url[1..] + tail;
      UrlEndOf(url[1..], tail);
    }
  }

  lemma {:induction false} UrlEndSpec(s: string)
    ensures forall c | c in s[..UrlEnd(s)] :: !IsHtmlSpace(c)
    ensures UrlEnd(s) < |s| ==> IsHtmlSpace(s[UrlEnd(s)])
  {
    if s != "" && !IsHtmlSpace(s[0]) {
      UrlEndSpec(s[1..]);
      assert s[..UrlEnd(s)] == [s[0]] + s[1..][..UrlEnd(s[1..])];
    }
  }

  lemma {:induction false} DescriptorEndOf(d: string, tail: string, depth: nat)
    ensures DescriptorEnd(d + tail, depth) ==
            if DescriptorEnd(d, depth) < |d| then DescriptorEnd(d, depth)
            else |d| + DescriptorEnd(tail, Depth(d, depth))
  {
    if d == "" {
      assert d + tail == tail;
    } else if !(d[0] == ',' && depth == 0) {
      assert (d + tail)[1..] == d[1..] + tail;
      DescriptorEndOf(d[1..], tail, Nest(d[0], depth));
    }
  }

  lemma {:induction false} DescriptorEndSpec(s: string, depth: nat)
    ensures var n := DescriptorEnd(s, depth);
            && DescriptorEnd(s[..n], depth) == n
            && (n < |s| ==> s[n] == ',' && Depth(s[..n], depth) == 0)
  {
    if s != "" && !(s[0] == ',' && depth == 0) {
      DescriptorEndSpec(s[1..], Nest(s[0], depth));
      var n := DescriptorEnd(s, depth);
      assert s[..n][1..] == s[1..][..n - 1];
    }
  }

  lemma {:induction false} DepthOf(d: string, tail: string, depth: nat)
    ensures Depth(d + tail, depth) == Depth(tail, Depth(d, depth))
  {
    if d == "" {
      assert d + tail == tail;
    } else {
      assert (d + tail)[1..] == d[1..] + tail;
      DepthOf(d[1..], tail, Nest(d[0], depth));
    }
  }

  lemma {:induction false} SpaceIsFlat(s: string, depth: nat)
    requires forall c | c in s :: IsSpace(c)
    ensures DescriptorEnd(s, depth) == |s| && Depth(s, depth) == depth
  {
    if s != "" {
      assert IsSpace(s[0]);
      assert forall c | c in s[1..] :: c in s;
      SpaceIsFlat(s[1..], depth);
    }
  }

  // ---------------------------------------------------------------- what the parser yields

  lemma TrimSpaceSplit(s: string) returns (before: string, after: string)
    ensures s == before + (TrimSpace(s) + after)
    ensures (forall c | c in before :: IsSpace(c)) && (forall c | c in after :: IsSpace(c))
  {
    TrimLeftSpec(IsSpace, s);
    var rest := TrimLeft(IsSpace, s);
    TrimRightSpec(IsSpace, rest);
    before, after := s[..|s| - |rest|], rest[|TrimSpace(s)|..];
    assert rest == TrimSpace(s) + after && s == before + rest;
  }

  /** Commas and white space around a token are dropped, and nothing else. */
  lemma StrippedSpec(token: string)
    requires forall c | c in token :: !IsHtmlSpace(c)
    ensures |Stripped(token)| <= |token| && (CommaEnded(token) ==> |Stripped(token)| < |token|)
    ensures Stripped(token) != "" ==> ParsedUrl(Stripped(token))
  {
    TrimRightSpec(IsComma, token);
    var url := TrimRight(IsComma, token);
    var before, after := TrimSpaceSplit(url);
    TrimTrimmed(IsSpace, url);
    assert token == url + token[|url|..];
    forall c | c in Stripped(token) ensures c in token {
      assert c in url;
    }
  }

  lemma StrippedStarts(token: string)
    requires token != "" && token[0] != ',' && !IsSpace(token[0])
    ensures Stripped(token) != "" && Stripped(token)[0] == token[0]
  {
    hide TrimRight, IsSpace;
    TrimRightStarts(IsComma, token);
    TrimRightStarts(IsSpace, TrimRight(IsComma, token));
  }

  lemma TrimRightStarts(drop: char -> bool, s: string)
    requires s != "" && !drop(s[0])
    ensures TrimRight(drop, s) != "" && TrimRight(drop, s)[0] == s[0]
  {
    TrimRightSpec(drop, s);
    var r := TrimRight(drop, s);
    assert s == r + s[|r|..];
    assert s[0] in s;
  }

  lemma StrippedKeeps(token: string)
    requires token != "" && !CommaEnded(token)
    ensures Stripped(token) == TrimSpace(token) && (Trimmed(IsSpace, token) ==> Stripped(token) == token)
    ensures !IsSpace(token[|token| - 1]) ==> Stripped(token) != ""
  {
    TrimTrimmed(IsSpace, token);
    var before, after := TrimSpaceSplit(token);
    assert token[|token| - 1] in token;
  }

  lemma TokenDescriptor(text: string)
    ensures var n := DescriptorEnd(text, 0);
            var d := TrimSpace(text[..n]);
            PrintableDescriptor(d) && (n < |text| ==> Depth(d, 0) == 0)
  {
    hide DescriptorEnd, Depth, TrimSpace, IsSpace;
    DescriptorEndSpec(text, 0);
    var x := text[..DescriptorEnd(text, 0)];
    var before, after := TrimSpaceSplit(x);
    var d := TrimSpace(x);
    SpaceIsFlat(before, 0);
    DescriptorEndOf(before, d + after, 0);
    DescriptorEndOf(d, after, 0);
    SpaceIsFlat(after, Depth(d, 0));
    DepthOf(before, d + after, 0);
    DepthOf(d, after, 0);
    TrimSpaceTrims(x);
  }

  lemma TrimSpaceTrims(s: string)
    ensures Trimmed(IsSpace, TrimSpace(s))
  {
    TrimTrimmed(IsSpace, s);
  }

  lemma NextIsParsed(s: string)
    requires UrlEnd(s) > 0
    ensures |Next(s).0| <= 1
    ensures |Next(s).0| == 1 ==>
              && ParsedUrl(Next(s).0[0].url) && PrintableDescriptor(Next(s).0[0].descriptor)
              && (Next(s).1 == "" || Depth(Next(s).0[0].descriptor, 0) == 0)
  {
    hide ParsedUrl, PrintableDescriptor, DescriptorEnd, UrlEnd, Depth, TrimSpace, Stripped;
    UrlEndSpec(s);
    StrippedSpec(s[..UrlEnd(s)]);
    TokenDescriptor(TrimLeft(IsHtmlSpace, s[UrlEnd(s)..]));
    NoDescriptor();
  }

  lemma NoDescriptor()
    ensures PrintableDescriptor("") && Depth("", 0) == 0
  {
  }

  lemma {:induction false} ParseIsParsed(value: string)
    ensures Parsed(Parse(value))
    decreases |value|
  {
    hide ParsedUrl, PrintableDescriptor, Depth, Next;
    var s := TrimLeft(IsSeparator, value);
    if UrlEnd(s) > 0 {
      NextIsParsed(s);
      var (first, rest) := Next(s);
      ParseIsParsed(rest);
      if first == [] {
        assert first + Parse(rest) == Parse(rest);
      } else {
        assert (first + Parse(rest))[1..] == Parse(rest);
      }
      if rest == "" {
        NothingLeft();
      }
    }
  }

  lemma NothingLeft()
    ensures Parse("") == []
  {
  }

  // ---------------------------------------------------------------- reading back what was printed

  /** The URL that is read where `url` was printed. */
  function Reread(url: string): string {
    Stripped(TrimLeft(IsSeparator, url))
  }

  /** A URL is read back unless it has an outer comma; then it comes back shorter, or not at all. */
  lemma RereadSpec(url: string)
    requires ParsedUrl(url)
    ensures !CommaLed(url) && !CommaEnded(url) ==> Reread(url) == url
    ensures CommaLed(url) || CommaEnded(url) ==> |Reread(url)| < |url|
    ensures !CommaLed(url) ==> Reread(url) != "" && Reread(url)[0] == url[0]
    ensures Reread(url) == "" ==> CommaEnded(url)
  {
    hide Stripped, TrimLeft;
    TrimLeftSpec(IsSeparator, url);
    var r := TrimLeft(IsSeparator, url);
    assert url == url[..|url| - |r|] + r;
    assert url[0] in url && url[|url| - 1] in url;
    assert forall c | c in r :: c in url;
    StrippedSpec(r);
    if r == "" {
      assert url[..|url| - |r|] == url;
      assert IsSeparator(url[|url| - 1]);
    } else {
      assert !IsSpace(r[|r| - 1]);
      assert r[|r| - 1] == url[|url| - 1];
      if !CommaEnded(r) { StrippedKeeps(r); }
    }
    if !CommaLed(url) {
      SeparatorAhead(url);
      StrippedStarts(url);
    } else {
      CommaAhead(url);
    }
  }

  lemma SeparatorAhead(s: string)
    requires s != "" && !IsSeparator(s[0])
    ensures TrimLeft(IsSeparator, s) == s
  {
  }

  lemma CommaAhead(s: string)
    requires CommaLed(s)
    ensures |TrimLeft(IsSeparator, s)| < |s|
  {
  }

  lemma {:induction false} ParseSkips(separators: string, s: string)
    requires forall c | c in separators :: IsSeparator(c)
    ensures Parse(separators + s) == Parse(s)
  {
    if separators == "" {
      assert separators + s == s;
    } else {
      assert separators[0] in separators;
      assert forall c | c in separators[1..] :: c in separators;
      assert (separators + s)[1..] == separators[1..] + s;
      ParseSkips(separators[1..], s);
    }
  }

  /** What may follow a printed candidate: nothing, or the comma before the next one. */
  predicate Follows(descriptor: string, tail: string) {
    tail == "" || (|tail| > 1 && tail[0] == ',' && tail[1] == ' ' && Depth(descriptor, 0) == 0)
  }

  function Found(url: string, descriptor: string): seq<Candidate> {
    if url == "" then [] else [Candidate(url, descriptor)]
  }

  /** A token without a descriptor. */
  lemma NextBare(token: string, tail: string)
    requires token != "" && (forall c | c in token :: !IsHtmlSpace(c)) && Follows("", tail)
    ensures UrlEnd(token + tail) > 0 && Next(token + tail) == (Found(Stripped(token), ""), Tail(tail, 0))
  {
    hide Stripped;
    var s, whole := token + tail, if tail == "" then token else token + ",";
    assert s == whole + Tail(tail, 0);
    UrlEndOf(whole, Tail(tail, 0));
    assert s[..|whole|] == whole && s[|whole|..] == Tail(tail, 0);
    if tail != "" {
      CommaIsStripped(token);
    }
  }

  lemma CommaIsStripped(token: string)
    ensures Stripped(token + ",") == Stripped(token)
  {
    assert (token + ",")[..|token|] == token;
  }

  lemma DescriptorOf(d: string, tail: string)
    requires PrintableDescriptor(d) && d != "" && Follows(d, tail)
    ensures TrimLeft(IsHtmlSpace, " " + (d + tail)) == d + tail
    ensures DescriptorEnd(d + tail, 0) == |d| && TrimSpace((d + tail)[..|d|]) == d
    ensures Tail(d + tail, |d|) == Tail(tail, 0)
  {
    var text := d + tail;
    assert (" " + text)[1..] == text;
    DescriptorEndOf(d, tail, 0);
    assert text[..|d|] == d;
    TrimTrimmed(IsSpace, d);
    if tail != "" {
      assert text[|d| + 1..] == tail[1..];
    }
  }

  /** A token before a descriptor: a comma at its end keeps the two apart. */
  lemma NextDescribed(token: string, d: string, tail: string)
    requires token != "" && (forall c | c in token :: !IsHtmlSpace(c))
    requires PrintableDescriptor(d) && d != "" && Follows(d, tail)
    ensures var s := token + (" " + (d + tail));
            && UrlEnd(s) > 0
            && Next(s) ==
               if Stripped(token) == "" || CommaEnded(token) then (Found(Stripped(token), ""), " " + (d + tail))
               else (Found(Stripped(token), d), Tail(tail, 0))
  {
    hide Stripped, DescriptorEnd, TrimLeft, TrimSpace, Depth, PrintableDescriptor;
    var rest := " " + (d + tail);
    UrlEndOf(token, rest);
    assert (token + rest)[..|token|] == token && (token + rest)[|token|..] == rest;
    DescriptorOf(d, tail);
  }

  /** What is read first where a candidate was printed, and what the reading goes on with. */
  lemma ReadsFirst(c: Candidate, tail: string)
    requires ParsedUrl(c.url) && PrintableDescriptor(c.descriptor) && Follows(c.descriptor, tail)
    ensures var apart := CommaEnded(c.url) && c.descriptor != "";
            Parse(RenderCandidate(c) + tail) ==
            Found(Reread(c.url), if apart then "" else c.descriptor) +
            Parse(if apart then c.descriptor + tail else Tail(tail, 0))
  {
    hide Stripped, Next, UrlEnd, Depth, PrintableDescriptor, CommaEnded, TrimLeft;
    TrimLeftSpec(IsSeparator, c.url);
    var r := TrimLeft(IsSeparator, c.url);
    var skipped, after := c.url[..|c.url| - |r|], if c.descriptor == "" then tail else " " + (c.descriptor + tail);
    assert c.url == skipped + r;
    assert RenderCandidate(c) + tail == skipped + (r + after);
    ParseSkips(skipped, r + after);
    RereadSpec(c.url);
    assert forall x | x in r :: x in c.url;
    if r == "" {
      NothingStripped();
      assert r + after == after;
      ParseAfterBlank(c.descriptor, tail);
    } else {
      ReadsToken(c.url, r, c.descriptor, tail);
    }
  }

  lemma NothingStripped()
    ensures Stripped("") == ""
  {
  }

  lemma ParseAfterBlank(d: string, tail: string)
    requires Follows(d, tail)
    ensures Parse(" " + (d + tail)) == Parse(d + tail) && Parse(tail) == Parse(Tail(tail, 0))
  {
    hide Parse;
    ParseSkips(" ", d + tail);
    if tail != "" {
      assert tail == "," + tail[1..];
      ParseSkips(",", tail[1..]);
    }
  }

  /** The same once the commas in front are skipped. */
  lemma ReadsToken(url: string, token: string, d: string, tail: string)
    requires ParsedUrl(url) && token != "" && token == TrimLeft(IsSeparator, url)
    requires PrintableDescriptor(d) && Follows(d, tail)
    ensures var apart := CommaEnded(url) && d != "";
            Parse(token + if d == "" then tail else " " + (d + tail)) ==
            Found(Stripped(token), if apart then "" else d) + Parse(if apart then d + tail else Tail(tail, 0))
  {
    hide Stripped, Next, UrlEnd, Depth, PrintableDescriptor, TrimLeft;
    TrimLeftSpec(IsSeparator, url);
    assert forall x | x in token :: x in url;
    assert token[|token| - 1] == url[|url| - 1];
    RereadSpec(url);
    ParseAfterBlank(d, tail);
    SeparatorAhead(token + if d == "" then tail else " " + (d + tail));
    if d == "" {
      NextBare(token, tail);
    } else {
      NextDescribed(token, d, tail);
    }
  }

  /** A descriptor that is read as a candidate begins with its own first character. */
  lemma ReadsDescriptor(d: string, tail: string)
    requires PrintableDescriptor(d) && d != ""
    ensures Parse(d + tail) != [] && Parse(d + tail)[0].url != "" && !CommaLed(Parse(d + tail)[0].url)
  {
    hide Stripped;
    var s := d + tail;
    assert d[0] != ',';
    SeparatorAhead(s);
    assert UrlEnd(s) > 0 && s[..UrlEnd(s)][0] == d[0];
    StrippedStarts(s[..UrlEnd(s)]);
  }

  /** What follows the first candidate in a printed list. */
  function After(candidates: seq<Candidate>): string
    requires candidates != []
  {
    if |candidates| == 1 then "" else ", " + Render(candidates[1..])
  }

  lemma RenderFirst(candidates: seq<Candidate>)
    requires candidates != []
    ensures Render(candidates) == RenderCandidate(candidates[0]) + After(candidates)
  {
    assert RenderAll(candidates)[1..] == RenderAll(candidates[1..]);
    assert |candidates| > 1 ==> RenderAll(candidates[1..]) != [];
  }

  lemma ParseRest(candidates: seq<Candidate>)
    requires candidates != []
    ensures Parse(Tail(After(candidates), 0)) == Parse(Render(candidates[1..]))
  {
    hide Parse, Render;
    if |candidates| > 1 {
      var rest := Render(candidates[1..]);
      assert (", " + rest)[1..] == " " + rest;
      ParseSkips(" ", rest);
    } else {
      assert candidates[1..] == [];
      ReadsNothing();
      NothingLeft();
    }
  }

  /** A list read back: its first candidate, as far as it survives, and the rest. */
  lemma ReadsList(candidates: seq<Candidate>)
    requires candidates != [] && Parsed(candidates)
    ensures var c := candidates[0];
            var apart := CommaEnded(c.url) && c.descriptor != "";
            Parse(Render(candidates)) ==
            if apart then Found(Reread(c.url), "") + Parse(c.descriptor + After(candidates))
            else Found(Reread(c.url), c.descriptor) + Parse(Render(candidates[1..]))
  {
    hide Parse, Render, RenderCandidate, Reread, ParsedUrl, PrintableDescriptor, Depth, CommaEnded;
    RenderFirst(candidates);
    ParseRest(candidates);
    ReadsFirst(candidates[0], After(candidates));
  }

  /** Reading a list back never puts candidates with a leading comma before it. */
  lemma {:induction false} NothingIsPutBefore(extra: seq<Candidate>, candidates: seq<Candidate>)
    requires Parsed(candidates) && extra != [] && forall c | c in extra :: CommaLed(c.url)
    ensures Parse(Render(candidates)) != extra + candidates
    decreases |candidates|
  {
    hide Parse, Render, Reread, ParsedUrl, PrintableDescriptor, Depth;
    if candidates == [] {
      ReadsNothing();
    } else {
      var c, rest := candidates[0], candidates[1..];
      var again := Parse(Render(candidates));
      ReadsList(candidates);
      RereadSpec(c.url);
      assert (extra + candidates)[0] in extra;
      if !CommaLed(c.url) {
        assert again[0].url == Reread(c.url);
      } else if CommaEnded(c.url) && c.descriptor != "" {
        ReadsDescriptor(c.descriptor, After(candidates));
        assert again[|Found(Reread(c.url), "")|] == Parse(c.descriptor + After(candidates))[0];
        assert (extra + candidates)[1] == if |extra| > 1 then extra[1] else c;
      } else if Reread(c.url) == "" {
        NothingIsPutBefore(extra + [c], rest);
        assert extra + candidates == (extra + [c]) + rest;
      } else {
        NothingIsPutBefore(extra[1..] + [c], rest);
        assert (extra + candidates)[1..] == (extra[1..] + [c]) + rest;
        assert again[1..] == Parse(Render(rest));
      }
    }
  }

  lemma ReadsNothing()
    ensures Render([]) == "" && Parse(Render([])) == []
  {
  }

  /** Where a URL has an outer comma the list does not read back. */
  lemma {:induction false} OuterCommasAreLost(candidates: seq<Candidate>)
    requires Parsed(candidates) && !NoOuterCommas(candidates)
    ensures Parse(Render(candidates)) != candidates
  {
    hide Parse, Render, Reread, ParsedUrl, PrintableDescriptor, Depth;
    var c, rest := candidates[0], candidates[1..];
    assert candidates == [c] + rest;
    ReadsList(candidates);
    RereadSpec(c.url);
    if CommaLed(c.url) || CommaEnded(c.url) {
      if Reread(c.url) == "" {
        if c.descriptor != "" {
          ReadsDescriptor(c.descriptor, After(candidates));
        } else {
          NothingIsPutBefore([c], rest);
        }
      }
    } else {
      OuterCommasAreLost(rest);
      assert Parse(Render(candidates))[1..] == Parse(Render(rest));
    }
  }

  lemma {:induction false} PrintableReadsBack(candidates: seq<Candidate>)
    requires Printable(candidates)
    ensures Parse(Render(candidates)) == candidates
  {
    hide Parse, Render, Reread, ParsedUrl, PrintableDescriptor, Depth, CommaEnded, CommaLed;
    if candidates == [] {
      ReadsNothing();
    } else {
      ReadsList(candidates);
      RereadSpec(candidates[0].url);
      NotBlank(candidates[0].url);
      PrintableReadsBack(candidates[1..]);
      assert candidates == [candidates[0]] + candidates[1..];
    }
  }

  lemma NotBlank(url: string)
    requires ParsedUrl(url)
    ensures url != ""
  {
  }

  /** Parsing inverts printing on exactly the printable lists. */
  lemma ReadsBackExactly(candidates: seq<Candidate>)
    ensures Parse(Render(candidates)) == candidates <==> Printable(candidates)
  {
    hide Parse, Render, Parsed, NoOuterCommas;
    ParseIsParsed(Render(candidates));
    if Printable(candidates) {
      PrintableReadsBack(candidates);
    } else if Parsed(candidates) {
      OuterCommasAreLost(candidates);
    }
  }

  /** Printing what was parsed and parsing again changes nothing, unless a URL was left with a
      comma at one of its ends. */
  lemma ParseRenderParse(value: string)
    ensures Parse(Render(Parse(value))) == Parse(value) <==> NoOuterCommas(Parse(value))
  {
    ParseIsParsed(value);
    ReadsBackExactly(Parse(value));
  }

  predicate PrintableUrl(url: string) {
    ParsedUrl(url) && !CommaLed(url) && !CommaEnded(url)
  }

  lemma {:induction false} UrlsDecide(mapper: string -> Option<string>, candidates: seq<Candidate>)
    requires Parsed(candidates)
    ensures Printable(MapAll(mapper, candidates)) <==>
            forall i | 0 <= i < |candidates| :: PrintableUrl(MapCandidate(mapper, candidates[i]).url)
  {
    hide ParsedUrl, PrintableDescriptor, Depth, CommaLed, CommaEnded;
    var mapped := MapAll(mapper, candidates);
    if candidates != [] {
      UrlsDecide(mapper, candidates[1..]);
      assert mapped[1..] == MapAll(mapper, candidates[1..]);
      assert mapped == [mapped[0]] + mapped[1..];
      assert forall i | 0 < i < |candidates| :: candidates[i] == candidates[1..][i - 1];
      assert forall i | 0 <= i < |candidates| - 1 :: candidates[1..][i] == candidates[i + 1];
    }
  }

  /** Rewriting changes only URLs: parsing the rewritten attribute gives the original candidates
      in order, each mapped URL replaced, every descriptor untouched, exactly when every URL of
      the result can be printed. */
  lemma RewriteChangesOnlyUrls(mapper: string -> Option<string>, value: string)
    ensures Parse(Render(MapAll(mapper, Parse(value)))) == MapAll(mapper, Parse(value)) <==>
            forall i | 0 <= i < |Parse(value)| :: PrintableUrl(MapCandidate(mapper, Parse(value)[i]).url)
  {
    ParseIsParsed(value);
    UrlsDecide(mapper, Parse(value));
    ReadsBackExactly(MapAll(mapper, Parse(value)));
  }

  /** There are such texts: a vertical tab, which the scanner keeps in the URL token but
      `TrimSpace` strips, hides a trailing comma. */
  lemma VerticalTabBreaksRoundTrip()
    ensures Parse("a,\U{0B}") == [Candidate("a,", "")]
    ensures Parse(Render(Parse("a,\U{0B}"))) == [Candidate("a", "")]
  {
    var s := "a,\U{0B}";
    UrlEndOf(s, "");
    assert s + "" == s && s[..3] == s && s[3..] == "";
    assert TrimRight(IsComma, s) == s;
    assert TrimLeft(IsSpace, s) == s;
    assert s[..2] == "a,";
    assert TrimRight(IsSpace, s) == TrimRight(IsSpace, "a,") == "a,";
    assert ""[..0] == "";
    assert Parse(s) == [Candidate("a,", "")];
    var t := "a,";
    assert RenderAll([Candidate(t, "")]) == [t];
    UrlEndOf(t, "");
    assert t + "" == t && t[..2] == t && t[2..] == "" && t[..1] == "a";
    assert TrimRight(IsComma, t) == TrimRight(IsComma, "a") == "a";
    assert TrimLeft(IsSpace, "a") == "a" && TrimRight(IsSpace, "a") == "a";
  }

  // ---------------------------------------------------------------- the code

  /** Both scanners advance an index over the text that the functions above cut off. */
  lemma {:induction false} TrimLeftFrom(drop: char -> bool, s: string, from: nat, to: nat)
    requires from <= to <= |s| && forall k | from <= k < to :: drop(s[k])
    ensures TrimLeft(drop, s[from..]) == TrimLeft(drop, s[to..])
    decreases |s| - from
  {
    if from < to {
      assert s[from..][1..] == s[from + 1..];
      TrimLeftFrom(drop, s, from + 1, to);
    }
  }

  lemma {:induction false} UrlEndFrom(s: string, from: nat, to: nat)
    requires from <= to <= |s| && forall k | from <= k < to :: !IsHtmlSpace(s[k])
    requires to == |s| || IsHtmlSpace(s[to])
    ensures UrlEnd(s[from..]) == to - from
    decreases |s| - from
  {
    if from < to {
      assert s[from..][1..] == s[from + 1..];
      UrlEndFrom(s, from + 1, to);
    }
  }

  /** `parseSrcsetCandidates`. */
  method ParseSrcsetCandidates(value: string) returns (candidates: seq<Candidate>)
    ensures candidates == Parse(value)
  {
    hide Parse, Next, UrlEnd, IsSeparator;
    candidates := [];
    var index := 0;
    assert value[0..] == value;
    NothingLeft();
    while index < |value|
      invariant index <= |value|
      invariant Parse(value) == candidates + Parse(value[index..])
    {
      index := SkipSeparators(value, index);
      if index >= |value| {
        break;
      }
      NextStep(value, index);
      var next, found := ParseCandidate(value, index);
      assert candidates + (found + Parse(value[next..])) == (candidates + found) + Parse(value[next..]);
      candidates := candidates + found;
      index := next;
    }
    assert value[|value|..] == "";
  }

  method SkipSeparators(value: string, begin: nat) returns (index: nat)
    requires begin <= |value|
    ensures begin <= index <= |value| && (index < |value| ==> !IsSeparator(value[index]))
    ensures Parse(value[begin..]) == Parse(value[index..])
  {
    index := begin;
    while index < |value| && IsSeparator(value[index])
      invariant begin <= index <= |value|
      invariant forall k | begin <= k < index :: IsSeparator(value[k])
    {
      index := index + 1;
    }
    TrimLeftFrom(IsSeparator, value, begin, index);
  }

  lemma NextStep(value: string, index: nat)
    requires index < |value| && !IsSeparator(value[index])
    ensures UrlEnd(value[index..]) > 0
    ensures Parse(value[index..]) == Next(value[index..]).0 + Parse(Next(value[index..]).1)
  {
  }

  /** One round of the loop: a candidate and the index after it. */
  method ParseCandidate(value: string, begin: nat) returns (index: nat, found: seq<Candidate>)
    requires begin < |value| && !IsSeparator(value[begin])
    ensures begin < index <= |value| && UrlEnd(value[begin..]) > 0
    ensures Next(value[begin..]) == (found, value[index..])
  {
    hide TrimLeft, TrimRight, TrimSpace, UrlEnd, DescriptorEnd;
    index := begin;
    while index < |value| && !IsHtmlSpace(value[index])
      invariant begin <= index <= |value|
      invariant forall k | begin <= k < index :: !IsHtmlSpace(value[k])
    {
      index := index + 1;
    }
    UrlEndFrom(value, begin, index);
    var token, rest := value[begin..index], value[index..];
    assert value[begin..][..index - begin] == token && value[begin..][index - begin..] == rest;
    var candidateUrl, trailingCommas := StripTrailingCommas(token);
    candidateUrl := TrimSpace(candidateUrl);
    if candidateUrl == "" {
      return index, [];
    }
    if trailingCommas > 0 {
      return index, [Candidate(candidateUrl, "")];
    }
    ghost var afterUrl := index;
    while index < |value| && IsHtmlSpace(value[index])
      invariant afterUrl <= index <= |value|
      invariant forall k | afterUrl <= k < index :: IsHtmlSpace(value[k])
    {
      index := index + 1;
    }
    TrimLeftFrom(IsHtmlSpace, value, afterUrl, index);
    StopsTrimming(value, index);
    var start := index;
    var end := ScanDescriptor(value, start);
    assert value[start..][..end - start] == value[start..end];
    var descriptor := TrimSpace(value[start..end]);
    index := if end < |value| then end + 1 else end;
    assert Tail(value[start..], end - start) == value[index..] by {
      if end < |value| {
        assert value[start..][end - start + 1..] == value[end + 1..];
      }
    }
    return index, [Candidate(candidateUrl, descriptor)];
  }

  lemma StopsTrimming(value: string, index: nat)
    requires index <= |value| && (index == |value| || !IsHtmlSpace(value[index]))
    ensures TrimLeft(IsHtmlSpace, value[index..]) == value[index..]
  {
  }

  method StripTrailingCommas(token: string) returns (url: string, count: nat)
    ensures url == TrimRight(IsComma, token)
    ensures token != "" ==> (count > 0 <==> token[|token| - 1] == ',')
  {
    url, count := token, 0;
    while HasSuffix(url, ",")
      invariant TrimRight(IsComma, url) == TrimRight(IsComma, token)
      invariant count == 0 ==> url == token
      invariant count > 0 ==> token != "" && token[|token| - 1] == ','
      decreases |url|
    {
      url := TrimSuffix(url, ",");
      count := count + 1;
    }
  }

  /** The descriptor loop: stop at the first comma outside parentheses. */
  method ScanDescriptor(value: string, start: nat) returns (index: nat)
    requires start <= |value|
    ensures start <= index <= |value| && index - start == DescriptorEnd(value[start..], 0)
  {
    index := start;
    var parentheses := 0;
    while index < |value|
      invariant start <= index <= |value| && parentheses >= 0
      invariant DescriptorEnd(value[start..], 0) == index - start + DescriptorEnd(value[index..], parentheses)
    {
      assert value[index..][1..] == value[index + 1..];
      if value[index] == '(' {
        parentheses := parentheses + 1;
      } else if value[index] == ')' && parentheses > 0 {
        parentheses := parentheses - 1;
      } else if value[index] == ',' && parentheses == 0 {
        break;
      }
      index := index + 1;
    }
  }

  method MapUrls(original: seq<Candidate>, mapper: string -> Option<string>)
      returns (parts: seq<Candidate>, changed: bool)
    ensures parts == MapAll(mapper, original)
    ensures changed <==> Changes(mapper, original)
  {
    hide MapUrl;
    parts, changed := original, false;
    for i := 0 to |parts|
      invariant |parts| == |original|
      invariant forall k | 0 <= k < i :: parts[k] == MapCandidate(mapper, original[k])
      invariant forall k | i <= k < |parts| :: parts[k] == original[k]
      invariant changed <==> exists k | 0 <= k < i :: MapUrl(mapper, original[k].url).Some?
    {
      var rewritten := MapUrl(mapper, parts[i].url);
      if rewritten.Some? {
        parts := parts[i := parts[i].(url := rewritten.value)];
        changed := true;
      }
    }
  }

  method RenderParts(parts: seq<Candidate>) returns (text: string)
    ensures text == Render(parts)
  {
    var rendered: seq<string> := [];
    for i := 0 to |parts|
      invariant RenderAll(parts) == rendered + RenderAll(parts[i..])
    {
      var candidate := parts[i].url;
      if parts[i].descriptor != "" {
        candidate := candidate + " " + parts[i].descriptor;
      }
      assert candidate == RenderCandidate(parts[i]);
      assert parts[i..][1..] == parts[i + 1..];
      rendered := rendered + [candidate];
    }
    assert rendered + [] == rendered;
    return Join(rendered, ", ");
  }

  /** `rewriteSrcset`: the attribute is printed anew only if some URL was mapped. */
  method RewriteSrcset(value: string, mapper: string -> Option<string>) returns (result: string, changed: bool)
    ensures changed <==> Changes(mapper, Parse(value))
    ensures result == if changed then Render(MapAll(mapper, Parse(value))) else value
  {
    var parts := ParseSrcsetCandidates(value);
    parts, changed := MapUrls(parts, mapper);
    if !changed {
      return value, false;
    }
    result := RenderParts(parts);
  }
}
