/** Strings as the gateway handles them: sequences of characters, with the parts
    of Go's `strings` package that the modelled code calls. White space is the whole Unicode set;
    letter case is that of ASCII and of the few other letters that fold to it. */
module Text {

  datatype Option<+T> = None | Some(value: T)

  /** In front of what the rest gives, if it gives anything. */
  function Prepend<T>(head: seq<T>, tail: Option<seq<T>>): Option<seq<T>> {
    if tail.None? then None else Some(head + tail.value)
  }

  lemma PrependNothing<T>(tail: Option<seq<T>>)
    ensures Prepend([], tail) == tail
  {
    if tail.Some? {
      assert [] + tail.value == tail.value;
    }
  }

  lemma PrependOne<T>(head: seq<T>, middle: T, tail: Option<seq<T>>)
    ensures Prepend(head, Prepend([middle], tail)) == Prepend(head + [middle], tail)
  {
    if tail.Some? {
      assert head + ([middle] + tail.value) == (head + [middle]) + tail.value;
    }
  }

  /** Unicode white space, the set that `strings.TrimSpace` strips. */
  predicate IsSpace(c: char) {
    c == ' ' || '\t' <= c <= '\r' || c == '\U{85}' || c == '\U{A0}' || c == '\U{1680}' ||
    '\U{2000}' <= c <= '\U{200A}' || c == '\U{2028}' || c == '\U{2029}' || c == '\U{202F}' ||
    c == '\U{205F}' || c == '\U{3000}'
  }

  function TrimLeft(drop: char -> bool, s: string): (r: string)
    ensures |r| <= |s|
  {
    if s != [] && drop(s[0]) then TrimLeft(drop, s[1..]) else s
  }

  function TrimRight(drop: char -> bool, s: string): string {
    if s != [] && drop(s[|s| - 1]) then TrimRight(drop, s[..|s| - 1]) else s
  }

  function Trim(drop: char -> bool, s: string): string {
    TrimRight(drop, TrimLeft(drop, s))
  }

  function TrimSpace(s: string): string {
    Trim(IsSpace, s)
  }

  /** `TrimLeft` removes a run of dropped characters and stops at the first other one. */
  lemma {:induction false} TrimLeftSpec(drop: char -> bool, s: string)
    ensures var r := TrimLeft(drop, s);
            && |r| <= |s| && s[|s| - |r|..] == r
            && (r == [] || !drop(r[0]))
            && (forall c | c in s[..|s| - |r|] :: drop(c))
    decreases |s|
  {
    if s != [] && drop(s[0]) {
      TrimLeftSpec(drop, s[1..]);
      var r := TrimLeft(drop, s[1..]);
      assert s[..|s| - |r|] == [s[0]] + s[1..][..|s| - 1 - |r|];
    }
  }

  lemma {:induction false} TrimRightSpec(drop: char -> bool, s: string)
    ensures var r := TrimRight(drop, s);
            && |r| <= |s| && s[..|r|] == r
            && (r == [] || !drop(r[|r| - 1]))
            && (forall c | c in s[|r|..] :: drop(c))
    decreases |s|
  {
    if s != [] && drop(s[|s| - 1]) {
      TrimRightSpec(drop, s[..|s| - 1]);
      var r := TrimRight(drop, s[..|s| - 1]);
      assert s[|r|..] == s[..|s| - 1][|r|..] + [s[|s| - 1]];
    }
  }

  /** A string that neither starts nor ends with a dropped character is left alone. */
  predicate Trimmed(drop: char -> bool, s: string) {
    s == [] || (!drop(s[0]) && !drop(s[|s| - 1]))
  }

  lemma TrimTrimmed(drop: char -> bool, s: string)
    ensures Trimmed(drop, Trim(drop, s))
    ensures Trimmed(drop, s) ==> Trim(drop, s) == s
  {
    TrimLeftSpec(drop, s);
    TrimRightSpec(drop, TrimLeft(drop, s));
  }

  /** What is dropped around a trimmed text does not matter. */
  lemma {:induction false} TrimAround(drop: char -> bool, before: string, core: string, after: string)
    requires core != "" && Trimmed(drop, core) && (forall c | c in before :: drop(c)) &&
             (forall c | c in after :: drop(c))
    ensures Trim(drop, before + (core + after)) == core
    decreases |before|, |after|
  {
    var s := before + (core + after);
    if before != "" {
      assert s[0] == before[0] && s[1..] == before[1..] + (core + after);
      TrimAround(drop, before[1..], core, after);
    } else if after != "" {
      var shorter := before + (core + after[..|after| - 1]);
      TrimAround(drop, before, core, after[..|after| - 1]);
      assert s[|s| - 1] == after[|after| - 1] && s[..|s| - 1] == shorter;
      assert TrimLeft(drop, s) == s && TrimLeft(drop, shorter) == shorter;
    } else {
      assert s == core;
      TrimTrimmed(drop, core);
    }
  }

  predicate IsSlash(c: char) { c == '/' }

  predicate IsComma(c: char) { c == ',' }

  predicate HasSuffix(s: string, suffix: string) {
    |suffix| <= |s| && s[|s| - |suffix|..] == suffix
  }

  function TrimPrefix(s: string, prefix: string): string {
    if prefix <= s then s[|prefix|..] else s
  }

  function TrimSuffix(s: string, suffix: string): string {
    if HasSuffix(s, suffix) then s[..|s| - |suffix|] else s
  }

  /** Lower case of one character: ASCII letters, and the two other code points
      whose lower case is an ASCII letter (dotted capital I and the Kelvin sign).
      Letters whose lower case is not ASCII stay as they are. */
  function LowerChar(c: char): char {
    if 'A' <= c <= 'Z' then ((c as int) + 32) as char
    else if c == '\U{130}' then 'i'
    else if c == '\U{212A}' then 'k'
    else c
  }

  function ToLower(s: string): string {
    seq(|s|, i requires 0 <= i < |s| => LowerChar(s[i]))
  }

  /** How slugs are compared: in lower case, without white space around them. */
  function NormalSlug(slug: string): string {
    ToLower(TrimSpace(slug))
  }

  /** Case folding of one character: ASCII letters, and the two other code points
      that fold to an ASCII letter (the Kelvin sign and the long s). */
  function FoldChar(c: char): char {
    if 'A' <= c <= 'Z' then ((c as int) + 32) as char
    else if c == '\U{212A}' then 'k'
    else if c == '\U{17F}' then 's'
    else c
  }

  function Fold(s: string): string {
    seq(|s|, i requires 0 <= i < |s| => FoldChar(s[i]))
  }

  /** `strings.EqualFold`, for letters that fold to ASCII. */
  predicate EqualFold(a: string, b: string) {
    Fold(a) == Fold(b)
  }

  function Join(parts: seq<string>, separator: string): string {
    if parts == [] then []
    else if |parts| == 1 then parts[0]
    else parts[0] + separator + Join(parts[1..], separator)
  }

  lemma JoinFirst(parts: seq<string>, separator: string)
    requires parts != []
    ensures Join(parts, separator) ==
            parts[0] + if |parts| == 1 then "" else separator + Join(parts[1..], separator)
  {
    if |parts| == 1 {
      assert parts[0] + "" == parts[0];
    } else {
      var rest := Join(parts[1..], separator);
      assert parts[0] + separator + rest == parts[0] + (separator + rest);
    }
  }

  /** `strings.Split` on one character. */
  function Split(s: string, c: char): (parts: seq<string>)
    ensures |parts| > 0
    ensures forall p | p in parts :: c !in p
  {
    if c !in s then [s]
    else
      var i := IndexOf(s, c);
      [s[..i]] + Split(s[i + 1..], c)
  }

  function IndexOf(s: string, c: char): (i: nat)
    requires c in s
    ensures i < |s| && s[i] == c && c !in s[..i]
  {
    if s[0] == c then 0 else 1 + IndexOf(s[1..], c)
  }

  lemma {:induction false} IndexOfAppend(head: string, c: char, tail: string)
    requires c !in head
    ensures c in head + [c] + tail
    ensures IndexOf(head + [c] + tail, c) == |head|
  {
    assert (head + [c] + tail)[|head|] == c;
    if head != [] {
      IndexOfAppend(head[1..], c, tail);
      assert (head + [c] + tail)[1..] == head[1..] + [c] + tail;
    }
  }

  lemma SplitAppend(head: string, c: char, tail: string)
    requires c !in head
    ensures Split(head + [c] + tail, c) == [head] + Split(tail, c)
  {
    IndexOfAppend(head, c, tail);
    assert (head + [c] + tail)[..|head|] == head && (head + [c] + tail)[|head| + 1..] == tail;
  }

  lemma {:induction false} SplitJoin(parts: seq<string>, c: char)
    requires parts != [] && forall p | p in parts :: c !in p
    ensures Split(Join(parts, [c]), c) == parts
  {
    if |parts| > 1 {
      SplitAppend(parts[0], c, Join(parts[1..], [c]));
      SplitJoin(parts[1..], c);
    }
  }

  /** Lexicographic order of strings by character, Go's `<` on strings. */
  predicate Less(a: string, b: string)
    decreases |a|
  {
    if b == [] then false
    else if a == [] then true
    else a[0] < b[0] || (a[0] == b[0] && Less(a[1..], b[1..]))
  }

  lemma {:induction false} LessIrreflexive(a: string)
    ensures !Less(a, a)
    decreases |a|
  {
    if a != [] { LessIrreflexive(a[1..]); }
  }

  lemma {:induction false} LessTransitive(a: string, b: string, c: string)
    requires Less(a, b) && Less(b, c)
    ensures Less(a, c)
    decreases |a|
  {
    if a != [] && a[0] == b[0] && b[0] == c[0] { LessTransitive(a[1..], b[1..], c[1..]); }
  }

  lemma {:induction false} LessTotal(a: string, b: string)
    ensures a == b || Less(a, b) || Less(b, a)
    decreases |a|
  {
    if a != [] && b != [] && a[0] == b[0] {
      LessTotal(a[1..], b[1..]);
      assert a == [a[0]] + a[1..] && b == [b[0]] + b[1..];
    }
  }
}
