/** What a `srcset` attribute means, told without its scanner ("Parsing a srcset attribute"
    in the WHATWG HTML Standard). */
module SrcsetForms {
  import opened Text
  import opened Srcset

  // ---------------------------------------------------------------- parentheses

  /** Opening less closing parentheses. */
  function Excess(s: string): int {
    if s == "" then 0 else (if s[0] == '(' then 1 else if s[0] == ')' then -1 else 0) + Excess(s[1..])
  }

  /** A parenthesis is open at the end: from some point on more are opened than closed. */
  predicate IsOpen(s: string) {
    exists k | 0 <= k <= |s| :: Excess(s[k..]) > 0
  }

  lemma {:induction false} DepthIsExcess(s: string, depth: nat)
    ensures Depth(s, depth) >= depth + Excess(s)
    ensures forall k | 0 <= k <= |s| :: Depth(s, depth) >= Excess(s[k..])
    ensures Depth(s, depth) == depth + Excess(s) || exists k | 0 <= k <= |s| :: Depth(s, depth) == Excess(s[k..])
  {
    assert s[0..] == s;
    if s != "" {
      var t := s[1..];
      DepthIsExcess(t, Nest(s[0], depth));
      forall k | 1 <= k <= |s| ensures Depth(s, depth) >= Excess(s[k..]) {
        assert t[k - 1..] == s[k..];
      }
      if k :| 0 <= k <= |t| && Depth(t, Nest(s[0], depth)) == Excess(t[k..]) {
        assert t[k..] == s[k + 1..];
      }
      assert Excess(t) == Excess(s[1..]);
    } else {
      assert Excess(s[0..]) == 0;
    }
  }

  lemma OpenExactly(s: string)
    ensures Depth(s, 0) > 0 <==> IsOpen(s)
  {
    DepthIsExcess(s, 0);
    assert s[0..] == s;
  }

  /** Every comma stands inside parentheses. */
  predicate CommasEnclosed(s: string) {
    forall k | 0 <= k < |s| && s[k] == ',' :: IsOpen(s[..k])
  }

  lemma {:induction false} DescriptorEndExactly(s: string, depth: nat)
    ensures DescriptorEnd(s, depth) == |s| <==> forall k | 0 <= k < |s| && s[k] == ',' :: Depth(s[..k], depth) > 0
  {
    if s != "" {
      var t, inner := s[1..], Nest(s[0], depth);
      assert s[..0] == "";
      DescriptorEndExactly(t, inner);
      forall k | 1 <= k < |s| ensures Depth(s[..k], depth) == Depth(t[..k - 1], inner) {
        assert s[..k][0] == s[0] && s[..k][1..] == t[..k - 1];
      }
      assert forall k | 0 <= k < |t| :: t[k] == s[k + 1] && Depth(s[..k + 1], depth) == Depth(t[..k], inner);
    }
  }

  lemma EnclosedExactly(s: string)
    ensures DescriptorEnd(s, 0) == |s| <==> CommasEnclosed(s)
  {
    DescriptorEndExactly(s, 0);
    forall k | 0 <= k < |s| ensures Depth(s[..k], 0) > 0 <==> IsOpen(s[..k]) {
      OpenExactly(s[..k]);
    }
  }

  // ---------------------------------------------------------------- the first candidate

  predicate IsWhite(c: char) {
    c == ' ' || c == '\t' || c == '\n' || c == '\r' || c == '\U{0C}'
  }

  predicate AllWhite(s: string) {
    forall c | c in s :: IsWhite(c)
  }

  /** A URL that can be told from what stands around it. */
  predicate ClearUrl(url: string) {
    && url != "" && url[0] != ',' && url[|url| - 1] != ',' && !IsSpace(url[0]) && !IsSpace(url[|url| - 1])
    && forall c | c in url :: !IsWhite(c)
  }

  lemma ClearIsPrintable(url: string)
    ensures ClearUrl(url) <==> PrintableUrl(url)
  {
  }

  /** What goes before the first candidate is skipped. */
  lemma SeparatorsAreSkipped(separators: string, text: string)
    requires forall c | c in separators :: IsWhite(c) || c == ','
    ensures Parse(separators + text) == Parse(text)
  {
    hide Parse;
    ParseSkips(separators, text);
  }

  /** A URL and a descriptor after white space; the comma that ends the descriptor is the first
      one outside parentheses. */
  lemma ReadsDescribed(url: string, gap: string, descriptor: string, rest: string)
    requires ClearUrl(url) && gap != "" && AllWhite(gap) && CommasEnclosed(descriptor) && !IsOpen(descriptor)
    requires descriptor != "" ==> !IsWhite(descriptor[0])
    ensures Parse(url + (gap + (descriptor + ("," + rest)))) == [Candidate(url, TrimSpace(descriptor))] + Parse(rest)
    ensures Parse(url + (gap + descriptor)) == [Candidate(url, TrimSpace(descriptor))]
  {
    hide IsOpen, CommasEnclosed, Next, TrimSpace, ClearUrl;
    ClearIsPrintable(url);
    EnclosedExactly(descriptor);
    OpenExactly(descriptor);
    var tail := "," + rest;
    NextAfterGap(url, gap, descriptor, tail);
    NextAfterGap(url, gap, descriptor, "");
    assert descriptor + "" == descriptor && tail[1..] == rest;
    BeginsHere(url, gap + (descriptor + tail));
    BeginsHere(url, gap + descriptor);
    NothingLeft();
  }

  /** The last descriptor may leave a parenthesis open. */
  lemma ReadsLast(url: string, gap: string, descriptor: string)
    requires ClearUrl(url) && gap != "" && AllWhite(gap) && CommasEnclosed(descriptor)
    requires descriptor != "" ==> !IsWhite(descriptor[0])
    ensures Parse(url + (gap + descriptor)) == [Candidate(url, TrimSpace(descriptor))]
  {
    hide IsOpen, CommasEnclosed, Next, TrimSpace, ClearUrl;
    ClearIsPrintable(url);
    EnclosedExactly(descriptor);
    NextAfterGap(url, gap, descriptor, "");
    assert descriptor + "" == descriptor;
    BeginsHere(url, gap + descriptor);
    NothingLeft();
  }

  lemma BeginsHere(url: string, after: string)
    requires PrintableUrl(url)
    ensures TrimLeft(IsSeparator, url + after) == url + after && UrlEnd(url + after) > 0
    ensures Parse(url + after) == Next(url + after).0 + Parse(Next(url + after).1)
  {
    hide Next;
    assert url[0] in url;
    assert (url + after)[0] == url[0];
  }

  lemma NextAfterGap(url: string, gap: string, descriptor: string, tail: string)
    requires PrintableUrl(url) && gap != "" && AllWhite(gap) && DescriptorEnd(descriptor, 0) == |descriptor|
    requires descriptor != "" ==> !IsWhite(descriptor[0])
    requires tail == "" || (tail[0] == ',' && Depth(descriptor, 0) == 0)
    ensures UrlEnd(url + (gap + (descriptor + tail))) > 0
    ensures Next(url + (gap + (descriptor + tail))) ==
            ([Candidate(url, TrimSpace(descriptor))], if tail == "" then "" else tail[1..])
  {
    hide Stripped, DescriptorEnd, TrimLeft, TrimSpace, Depth;
    var rest := gap + (descriptor + tail);
    assert gap[0] in gap;
    UrlEndOf(url, rest);
    assert (url + rest)[..|url|] == url && (url + rest)[|url|..] == rest;
    RereadSpec(url);
    UrlIsStripped(url);
    GapIsSkipped(gap, descriptor + tail);
    DescriptorEndOf(descriptor, tail, 0);
    TailStops(tail, Depth(descriptor, 0));
    assert (descriptor + tail)[..|descriptor|] == descriptor;
    assert tail != "" ==> (descriptor + tail)[|descriptor| + 1..] == tail[1..];
  }

  lemma TailStops(tail: string, depth: nat)
    requires tail == "" || (tail[0] == ',' && depth == 0)
    ensures DescriptorEnd(tail, depth) == 0
  {
  }

  lemma UrlIsStripped(url: string)
    requires PrintableUrl(url)
    ensures Stripped(url) == url
  {
    StrippedKeeps(url);
  }

  lemma {:induction false} GapIsSkipped(gap: string, text: string)
    requires AllWhite(gap) && (text == "" || !IsWhite(text[0]))
    ensures TrimLeft(IsHtmlSpace, gap + text) == text
  {
    if gap == "" {
      assert gap + text == text;
    } else {
      assert gap[0] in gap;
      assert forall c | c in gap[1..] :: c in gap;
      assert (gap + text)[1..] == gap[1..] + text;
      GapIsSkipped(gap[1..], text);
    }
  }

  /** A URL with commas after it is a candidate without a descriptor, whatever follows. */
  lemma ReadsBare(url: string, commas: string, rest: string)
    requires ClearUrl(url) && commas != "" && (forall c | c in commas :: c == ',')
    requires rest == "" || IsWhite(rest[0])
    ensures Parse(url + (commas + rest)) == [Candidate(url, "")] + Parse(rest)
  {
    hide Stripped, TrimLeft;
    ClearIsPrintable(url);
    var token := url + commas;
    assert url + (commas + rest) == token + rest;
    assert commas[|commas| - 1] in commas;
    forall c | c in token ensures !IsHtmlSpace(c) {
      assert c in url || c in commas;
    }
    UrlEndOf(token, rest);
    assert (token + rest)[..|token|] == token && (token + rest)[|token|..] == rest;
    CommasAreStripped(url, commas);
    BeginsHere(url, commas + rest);
  }

  lemma {:induction false} CommasAreStripped(url: string, commas: string)
    requires PrintableUrl(url) && forall c | c in commas :: c == ','
    ensures Stripped(url + commas) == url
  {
    hide Stripped;
    if commas == "" {
      assert url + commas == url;
      UrlIsStripped(url);
    } else {
      var fewer := commas[..|commas| - 1];
      assert forall c | c in fewer :: c in commas;
      assert commas[|commas| - 1] in commas;
      CommasAreStripped(url, fewer);
      CommaIsStripped(url + fewer);
      assert url + commas == url + fewer + ",";
    }
  }

  // ---------------------------------------------------------------- rewriting

  /** `data:` in any letter case. */
  predicate IsDataUrl(url: string) {
    && |url| >= 5 && url[0] in {'d', 'D'} && url[1] in {'a', 'A'} && url[2] in {'t', 'T'} && url[3] in {'a', 'A'}
    && url[4] == ':'
  }

  lemma DataUrlExactly(url: string)
    ensures "data:" <= ToLower(url) <==> IsDataUrl(url)
  {
    if |url| >= 5 {
      var lower := ToLower(url);
      assert forall i | 0 <= i < 5 :: lower[i] == LowerChar(url[i]);
      assert "data:" <= lower <==> lower[..5] == "data:";
      assert lower[..5] == "data:" <==>
             lower[0] == 'd' && lower[1] == 'a' && lower[2] == 't' && lower[3] == 'a' && lower[4] == ':';
    }
  }

  /** `result` is `original` with exactly the URLs replaced that are no data URLs and that the
      mapper takes. */
  predicate IsRewritten(mapper: string -> Option<string>, original: seq<Candidate>, result: seq<Candidate>) {
    |result| == |original| && forall i | 0 <= i < |original| ::
      && result[i].descriptor == original[i].descriptor
      && result[i].url == if IsDataUrl(original[i].url) || mapper(original[i].url).None? then original[i].url
                          else mapper(original[i].url).value
  }

  lemma RewrittenExactly(mapper: string -> Option<string>, original: seq<Candidate>, result: seq<Candidate>)
    ensures MapAll(mapper, original) == result <==> IsRewritten(mapper, original, result)
    ensures Changes(mapper, original) <==>
            exists i :: 0 <= i < |original| && !IsDataUrl(original[i].url) && mapper(original[i].url).Some?
  {
    forall i | 0 <= i < |original| ensures "data:" <= ToLower(original[i].url) <==> IsDataUrl(original[i].url) {
      DataUrlExactly(original[i].url);
    }
    if IsRewritten(mapper, original, result) {
      assert forall i | 0 <= i < |original| :: result[i] == MapAll(mapper, original)[i];
    }
  }

  /** Read again, the rewritten attribute gives the original candidates with exactly those URLs
      replaced, if and only if every URL of the result is clear. */
  lemma RewritingIsRead(mapper: string -> Option<string>, value: string, result: seq<Candidate>)
    requires IsRewritten(mapper, Parse(value), result)
    ensures Parse(Render(MapAll(mapper, Parse(value)))) == result <==>
            forall i | 0 <= i < |result| :: ClearUrl(result[i].url)
  {
    hide Parse, Render, IsRewritten, ClearUrl, MapAll, MapCandidate;
    RewrittenExactly(mapper, Parse(value), result);
    RewriteChangesOnlyUrls(mapper, value);
    MappedAt(mapper, Parse(value));
    forall i | 0 <= i < |result| ensures ClearUrl(result[i].url) <==> PrintableUrl(result[i].url) {
      ClearIsPrintable(result[i].url);
    }
  }

  lemma MappedAt(mapper: string -> Option<string>, original: seq<Candidate>)
    ensures |MapAll(mapper, original)| == |original|
    ensures forall i | 0 <= i < |original| :: MapAll(mapper, original)[i] == MapCandidate(mapper, original[i])
  {
  }
}
