/**
 * The string operations the bot applies to scraped text, over `seq<char>`:
 * Python's `str.strip()`, `re.sub(r"\s+", " ", s)`, `s.replace(p, "")` and
 * `html.escape(s)` (with its default `quote=True`).
 */
module Text {

  /** A character Python treats as whitespace: `str.isspace()`, which is also
      what `\s` matches in a `re` pattern over `str`. */
  predicate IsWs(c: char) {
    ('\t' <= c <= '\r') || ('\U{1C}' <= c <= ' ') || c == '\U{85}' || c == '\U{A0}'
    || c == '\U{1680}' || ('\U{2000}' <= c <= '\U{200A}') || c == '\U{2028}' || c == '\U{2029}'
    || c == '\U{202F}' || c == '\U{205F}' || c == '\U{3000}'
  }

  predicate AllWs(s: string) {
    forall i :: 0 <= i < |s| ==> IsWs(s[i])
  }

  /** The non-whitespace characters of `s`, in order. */
  function NonWs(s: string): string {
    if s == [] then []
    else (if IsWs(s[0]) then [] else [s[0]]) + NonWs(s[1..])
  }

  /** Whitespace occurs only as the plain space ' '. */
  predicate OnlySpaces(s: string) {
    forall i :: 0 <= i < |s| && IsWs(s[i]) ==> s[i] == ' '
  }

  /** Neither the first nor the last character is whitespace. */
  predicate Trimmed(s: string) {
    s == [] || (!IsWs(s[0]) && !IsWs(s[|s| - 1]))
  }

  // ---------------------------------------------------------------------------
  // str.strip()

  /** How many whitespace characters `s` starts with. */
  function Leading(s: string): (n: nat)
    ensures n <= |s| && (n < |s| ==> !IsWs(s[n]))
    ensures forall k :: 0 <= k < n ==> IsWs(s[k])
  {
    if s == [] || !IsWs(s[0]) then 0 else 1 + Leading(s[1..])
  }

  /** How many whitespace characters `s` ends with. */
  function Trailing(s: string): (n: nat)
    ensures n <= |s| && (n < |s| ==> !IsWs(s[|s| - n - 1]))
    ensures forall k :: |s| - n <= k < |s| ==> IsWs(s[k])
  {
    if s == [] || !IsWs(s[|s| - 1]) then 0 else 1 + Trailing(s[..|s| - 1])
  }

  /** `s.lstrip()`: drops the leading whitespace. */
  function TrimStart(s: string): (r: string)
    ensures |r| <= |s| && r == s[|s| - |r|..]
    ensures AllWs(s[..|s| - |r|])
    ensures r == [] || !IsWs(r[0])
  {
    s[Leading(s)..]
  }

  /** Dropping one leading whitespace character does not change `lstrip()`. */
  lemma TrimStartStep(s: string)
    requires s != [] && IsWs(s[0])
    ensures TrimStart(s) == TrimStart(s[1..])
  {
    assert Leading(s) == 1 + Leading(s[1..]);
  }

  /** `r` is the slice of `s` that starts at `i` and only whitespace lies around it. */
  predicate FramedBy(s: string, i: nat, r: string) {
    i + |r| <= |s| && r == s[i..i + |r|] && AllWs(s[..i]) && AllWs(s[i + |r|..])
  }

  /** `s.strip()`: the longest slice of `s` that neither starts nor ends with
      whitespace once only whitespace is cut from both ends. */
  function Strip(s: string): (r: string)
    ensures exists i: nat :: FramedBy(s, i, r)
    ensures Trimmed(r)
  {
    var i := Leading(s);
    var j := if i == |s| then i else |s| - Trailing(s);
    assert i <= j;
    assert FramedBy(s, i, s[i..j]);
    s[i..j]
  }

  /** Text that neither starts nor ends with whitespace is its own `strip()`. */
  lemma StripTrimmed(s: string)
    requires Trimmed(s)
    ensures Strip(s) == s
  {
    if s != [] {
      assert Leading(s) == 0 && Trailing(s) == 0;
    }
  }

  /** No two whitespace characters stand side by side. */
  ghost predicate NoWsPair(s: string) {
    forall i :: 0 <= i < |s| - 1 ==> !(IsWs(s[i]) && IsWs(s[i + 1]))
  }

  // ---------------------------------------------------------------------------
  // re.sub(r"\s+", " ", s)

  /** Replaces every maximal run of whitespace by one plain space. */
  function CollapseWs(s: string): (r: string)
    ensures |r| <= |s| && (r == [] <==> s == [])
    decreases |s|
  {
    if s == [] then []
    else if IsWs(s[0]) then [' '] + CollapseWs(TrimStart(s))
    else [s[0]] + CollapseWs(s[1..])
  }

  /** The only whitespace left is a plain space, never two side by side, and
      the result starts with whitespace exactly when `s` does. */
  lemma {:induction false} CollapseWsShape(s: string)
    ensures OnlySpaces(CollapseWs(s)) && NoWsPair(CollapseWs(s))
    ensures (|CollapseWs(s)| > 0 && IsWs(CollapseWs(s)[0])) <==> (|s| > 0 && IsWs(s[0]))
    decreases |s|
  {
    if s != [] {
      var t := if IsWs(s[0]) then TrimStart(s) else s[1..];
      CollapseWsShape(t);
      var r, rest := CollapseWs(s), CollapseWs(t);
      assert r == [if IsWs(s[0]) then ' ' else s[0]] + rest;
      forall i, j | 0 <= i < j < |r| && j == i + 1
        ensures !(IsWs(r[i]) && IsWs(r[j]))
      {
        if i > 0 {
          assert r[i] == rest[i - 1] && r[j] == rest[j - 1];
        }
      }
    }
  }

  lemma {:induction false} TrimStartKeepsText(s: string)
    ensures NonWs(TrimStart(s)) == NonWs(s)
  {
    if s != [] && IsWs(s[0]) {
      TrimStartStep(s);
      TrimStartKeepsText(s[1..]);
    }
  }

  /** Collapsing changes whitespace only: the other characters stay, in order. */
  lemma {:induction false} CollapseWsKeepsText(s: string)
    ensures NonWs(CollapseWs(s)) == NonWs(s)
    decreases |s|
  {
    if s != [] {
      if IsWs(s[0]) {
        var rest := CollapseWs(TrimStart(s));
        CollapseWsKeepsText(TrimStart(s));
        TrimStartKeepsText(s);
        assert NonWs([' '] + rest) == NonWs(rest);
      } else {
        var rest := CollapseWs(s[1..]);
        CollapseWsKeepsText(s[1..]);
        assert NonWs([s[0]] + rest) == [s[0]] + NonWs(rest);
      }
    }
  }

  /** A non-whitespace character passes `re.sub(r"\s+", " ", ...)` unchanged. */
  lemma CollapseCons(c: char, s: string)
    requires !IsWs(c)
    ensures CollapseWs([c] + s) == [c] + CollapseWs(s)
  {
    var t := [c] + s;
    assert t[0] == c && t[1..] == s;
  }

  /** Text without whitespace passes `re.sub(r"\s+", " ", ...)` unchanged. */
  lemma {:induction false} CollapsePlain(x: string, rest: string)
    requires forall i :: 0 <= i < |x| ==> !IsWs(x[i])
    ensures CollapseWs(x + rest) == x + CollapseWs(rest)
  {
    if x == [] {
      assert x + rest == rest;
    } else {
      var y := x[1..] + rest;
      assert x + rest == [x[0]] + y;
      CollapseCons(x[0], y);
      CollapsePlain(x[1..], rest);
      assert [x[0]] + (x[1..] + CollapseWs(rest)) == x + CollapseWs(rest);
    }
  }

  /** A whitespace run followed by a non-whitespace character becomes one space. */
  lemma CollapseRun(w: string, rest: string)
    requires w != [] && AllWs(w)
    requires rest == [] || !IsWs(rest[0])
    ensures CollapseWs(w + rest) == " " + CollapseWs(rest)
  {
    TrimStartRun(w, rest);
    assert (w + rest)[0] == w[0];
  }

  lemma {:induction false} TrimStartRun(w: string, rest: string)
    requires AllWs(w)
    requires rest == [] || !IsWs(rest[0])
    ensures TrimStart(w + rest) == rest
  {
    if w != [] {
      assert (w + rest)[0] == w[0];
      assert (w + rest)[1..] == w[1..] + rest;
      TrimStartStep(w + rest);
      TrimStartRun(w[1..], rest);
    } else {
      assert w + rest == rest;
    }
  }

  // ---------------------------------------------------------------------------
  // s.replace(p, "")

  /** `s.replace(p, "")`: removes the occurrences of `p` found by a left-to-right
      scan that resumes after each removed occurrence. An empty `p` leaves `s`
      as it is. */
  function RemoveAll(s: string, p: string): (r: string)
    ensures p == [] ==> r == s
    ensures |r| <= |s|
    ensures forall i :: 0 <= i < |r| ==> r[i] in s
    decreases |s|
  {
    if p == [] || |s| < |p| then s
    else if s[..|p|] == p then
      var r := RemoveAll(s[|p|..], p);
      assert forall i :: 0 <= i < |r| ==> r[i] in s[|p|..];
      r
    else
      var r := RemoveAll(s[1..], p);
      assert forall i :: 0 <= i < |r| ==> r[i] in s[1..];
      [s[0]] + r
  }

  /** `p` occurs in `s` starting at index `i`. */
  predicate HasAt(s: string, i: nat, p: string) {
    i + |p| <= |s| && s[i..i + |p|] == p
  }

  /** Removing a pattern that does not occur leaves the text unchanged. */
  lemma {:induction false} RemoveAllAbsent(s: string, p: string)
    requires p != []
    requires forall i: nat :: !HasAt(s, i, p)
    ensures RemoveAll(s, p) == s
    decreases |s|
  {
    if |s| >= |p| {
      assert !HasAt(s, 0, p);
      forall i: nat ensures !HasAt(s[1..], i, p) {
        assert !HasAt(s, i + 1, p);
        if i + |p| <= |s| - 1 {
          assert s[1..][i..i + |p|] == s[i + 1..i + 1 + |p|];
        }
      }
      RemoveAllAbsent(s[1..], p);
    }
  }

  lemma ConsSplit(x: string, t: string)
    requires x != []
    ensures [x[0]] + (x[1..] + t) == x + t
  {
    assert [x[0]] + x[1..] == x;
  }

  lemma NoHitShift(x: string, p: string, y: string)
    requires x != []
    requires forall i: nat :: i < |x| ==> !HasAt(x + p + y, i, p)
    ensures forall i: nat :: i < |x| - 1 ==> !HasAt(x[1..] + p + y, i, p)
  {
    var s := x + p + y;
    assert s[1..] == x[1..] + p + y;
    forall i: nat | i < |x| - 1 ensures !HasAt(s[1..], i, p) {
      assert !HasAt(s, i + 1, p);
      if i + |p| <= |s| - 1 {
        assert s[1..][i..i + |p|] == s[i + 1..i + 1 + |p|];
      }
    }
  }

  /** The scan removes the first occurrence of `p` and keeps everything before
      it: with `RemoveAllAbsent`, this fixes the left-to-right, non-overlapping
      removal of `s.replace(p, "")`. */
  lemma {:induction false} RemoveAllFirst(x: string, p: string, y: string)
    requires p != []
    requires forall i: nat :: i < |x| ==> !HasAt(x + p + y, i, p)
    ensures RemoveAll(x + p + y, p) == x + RemoveAll(y, p)
    decreases |x|
  {
    var s := x + p + y;
    var rest := RemoveAll(y, p);
    if x == [] {
      assert s == p + y;
      assert s[..|p|] == p && s[|p|..] == y;
      assert RemoveAll(s, p) == rest;
      assert x + rest == rest;
    } else {
      assert !HasAt(s, 0, p);
      assert s[0] == x[0] && s[1..] == x[1..] + p + y;
      assert RemoveAll(s, p) == [x[0]] + RemoveAll(x[1..] + p + y, p);
      NoHitShift(x, p, y);
      RemoveAllFirst(x[1..], p, y);
      ConsSplit(x, rest);
    }
  }

  // ---------------------------------------------------------------------------
  // html.escape(s, quote=True)

  /** `s.replace(c, t)` for a one-character `c`. */
  function ReplaceChar(s: string, c: char, t: string): (r: string)
    ensures c !in s ==> r == s
  {
    if s == [] then []
    else (if s[0] == c then t else [s[0]]) + ReplaceChar(s[1..], c, t)
  }

  lemma {:induction false} ReplaceCharAppend(a: string, b: string, c: char, t: string)
    ensures ReplaceChar(a + b, c, t) == ReplaceChar(a, c, t) + ReplaceChar(b, c, t)
  {
    if a == [] {
      assert a + b == b;
    } else {
      assert (a + b)[0] == a[0];
      assert (a + b)[1..] == a[1..] + b;
      ReplaceCharAppend(a[1..], b, c, t);
    }
  }

  /** The entity `html.escape` writes for one character. */
  function EscapeChar(c: char): (r: string)
    ensures |r| > 0 && (IsWs(r[0]) <==> IsWs(c)) && (IsWs(r[|r| - 1]) <==> IsWs(c))
    ensures forall i :: 0 <= i < |r| && IsWs(r[i]) ==> r == [c]
  {
    match c
    case '&' => "&amp;"
    case '<' => "&lt;"
    case '>' => "&gt;"
    case '"' => "&quot;"
    case '\'' => "&#x27;"
    case _ => [c]
  }

  /** Reference definition of escaping: each character mapped on its own. */
  function EscapeChars(s: string): string {
    if s == [] then [] else EscapeChar(s[0]) + EscapeChars(s[1..])
  }

  lemma {:induction false} EscapeCharsAppend(a: string, b: string)
    ensures EscapeChars(a + b) == EscapeChars(a) + EscapeChars(b)
  {
    if a == [] {
      assert a + b == b;
    } else {
      assert (a + b)[0] == a[0];
      assert (a + b)[1..] == a[1..] + b;
      EscapeCharsAppend(a[1..], b);
    }
  }

  /** The five sequential replacements of `html.escape`, in its order. */
  function EscapeSteps(s: string): string {
    ReplaceChar(ReplaceChar(ReplaceChar(ReplaceChar(ReplaceChar(
      s, '&', "&amp;"), '<', "&lt;"), '>', "&gt;"), '"', "&quot;"), '\'', "&#x27;")
  }

  lemma EscapeStepsAppend(a: string, b: string)
    ensures EscapeSteps(a + b) == EscapeSteps(a) + EscapeSteps(b)
  {
    ReplaceCharAppend(a, b, '&', "&amp;");
    var a1, b1 := ReplaceChar(a, '&', "&amp;"), ReplaceChar(b, '&', "&amp;");
    ReplaceCharAppend(a1, b1, '<', "&lt;");
    var a2, b2 := ReplaceChar(a1, '<', "&lt;"), ReplaceChar(b1, '<', "&lt;");
    ReplaceCharAppend(a2, b2, '>', "&gt;");
    var a3, b3 := ReplaceChar(a2, '>', "&gt;"), ReplaceChar(b2, '>', "&gt;");
    ReplaceCharAppend(a3, b3, '"', "&quot;");
    var a4, b4 := ReplaceChar(a3, '"', "&quot;"), ReplaceChar(b3, '"', "&quot;");
    ReplaceCharAppend(a4, b4, '\'', "&#x27;");
  }

  lemma ReplaceCharSingle(c: char, d: char, t: string)
    ensures ReplaceChar([c], d, t) == if c == d then t else [c]
  {
    assert [c][1..] == [];
  }

  // The escaping of one character, step by step: after each replacement the
  // character is either its entity (once its step has run) or still itself.

  lemma AfterAmp(c: char)
    ensures ReplaceChar([c], '&', "&amp;") == if c == '&' then EscapeChar(c) else [c]
  {
    ReplaceCharSingle(c, '&', "&amp;");
  }

  lemma AfterLt(c: char)
    ensures ReplaceChar(ReplaceChar([c], '&', "&amp;"), '<', "&lt;")
         == if c == '&' || c == '<' then EscapeChar(c) else [c]
  {
    AfterAmp(c);
    if c != '&' { ReplaceCharSingle(c, '<', "&lt;"); }
  }

  lemma AfterGt(c: char)
    ensures ReplaceChar(ReplaceChar(ReplaceChar([c], '&', "&amp;"), '<', "&lt;"), '>', "&gt;")
         == if c == '&' || c == '<' || c == '>' then EscapeChar(c) else [c]
  {
    AfterLt(c);
    if c != '&' && c != '<' { ReplaceCharSingle(c, '>', "&gt;"); }
  }

  lemma AfterQuot(c: char)
    ensures ReplaceChar(ReplaceChar(ReplaceChar(ReplaceChar([c], '&', "&amp;"), '<', "&lt;"), '>', "&gt;"), '"', "&quot;")
         == if c == '&' || c == '<' || c == '>' || c == '"' then EscapeChar(c) else [c]
  {
    AfterGt(c);
    if c != '&' && c != '<' && c != '>' { ReplaceCharSingle(c, '"', "&quot;"); }
  }

  /** On one character the five replacements produce exactly its entity:
      `&` goes first, so no later step rewrites an entity already written. */
  lemma EscapeStepsChar(c: char)
    ensures EscapeSteps([c]) == EscapeChar(c)
  {
    AfterQuot(c);
    if c != '&' && c != '<' && c != '>' && c != '"' { ReplaceCharSingle(c, '\'', "&#x27;"); }
  }

  lemma {:induction false} EscapeStepsPerChar(s: string)
    ensures EscapeSteps(s) == EscapeChars(s)
  {
    if s != [] {
      assert s == [s[0]] + s[1..];
      EscapeStepsAppend([s[0]], s[1..]);
      EscapeStepsChar(s[0]);
      EscapeStepsPerChar(s[1..]);
    }
  }

  /** One of the five entities `html.escape` writes starts at index `i`. */
  predicate EntityAt(s: string, i: nat) {
    HasAt(s, i, "&amp;") || HasAt(s, i, "&lt;") || HasAt(s, i, "&gt;")
    || HasAt(s, i, "&quot;") || HasAt(s, i, "&#x27;")
  }

  /** Safe to embed in HTML text and in a double- or single-quoted attribute:
      no raw `<`, `>`, `"` or `'`, and every `&` begins one of the five entities. */
  predicate IsEscaped(s: string) {
    forall i :: 0 <= i < |s| ==> EscapedAt(s, i)
  }

  /** The character at index `i` is not raw `<`, `>`, `"` or `'`, and if it is
      `&` it begins one of the five entities. */
  predicate EscapedAt(s: string, i: nat)
    requires i < |s|
  {
    s[i] != '<' && s[i] != '>' && s[i] != '"' && s[i] != '\''
    && (s[i] == '&' ==> EntityAt(s, i))
  }

  /** Escaped text holds none of the four characters that could end a tag or
      an attribute value. */
  lemma EscapedHasNoRaw(s: string)
    requires IsEscaped(s)
    ensures '<' !in s && '>' !in s && '"' !in s && '\'' !in s
  {
    forall i | 0 <= i < |s|
      ensures s[i] != '<' && s[i] != '>' && s[i] != '"' && s[i] != '\''
    {
      assert EscapedAt(s, i);
    }
  }

  lemma HasAtAppend(a: string, b: string, i: nat, p: string)
    ensures HasAt(a, i, p) ==> HasAt(a + b, i, p)
    ensures HasAt(b, i, p) ==> HasAt(a + b, |a| + i, p)
  {
    if HasAt(a, i, p) {
      assert (a + b)[i..i + |p|] == a[i..i + |p|];
    }
    if HasAt(b, i, p) {
      assert (a + b)[|a| + i..|a| + i + |p|] == b[i..i + |p|];
    }
  }

  lemma EntityAtAppend(a: string, b: string, i: nat)
    ensures EntityAt(a, i) ==> EntityAt(a + b, i)
    ensures EntityAt(b, i) ==> EntityAt(a + b, |a| + i)
  {
    HasAtAppend(a, b, i, "&amp;");
    HasAtAppend(a, b, i, "&lt;");
    HasAtAppend(a, b, i, "&gt;");
    HasAtAppend(a, b, i, "&quot;");
    HasAtAppend(a, b, i, "&#x27;");
  }

  lemma IsEscapedAppend(a: string, b: string)
    requires IsEscaped(a) && IsEscaped(b)
    ensures IsEscaped(a + b)
  {
    forall i | 0 <= i < |a + b|
      ensures EscapedAt(a + b, i)
    {
      if i < |a| {
        assert EscapedAt(a, i);
        EntityAtAppend(a, b, i);
      } else {
        assert EscapedAt(b, i - |a|);
        EntityAtAppend(a, b, i - |a|);
      }
    }
  }

  lemma {:induction false} EscapeCharsIsEscaped(s: string)
    ensures IsEscaped(EscapeChars(s))
  {
    if s != [] {
      var e := EscapeChar(s[0]);
      assert IsEscaped(e) by {
        if s[0] == '&' { assert HasAt(e, 0, "&amp;"); }
        else if s[0] == '<' { assert HasAt(e, 0, "&lt;"); }
        else if s[0] == '>' { assert HasAt(e, 0, "&gt;"); }
        else if s[0] == '"' { assert HasAt(e, 0, "&quot;"); }
        else if s[0] == '\'' { assert HasAt(e, 0, "&#x27;"); }
      }
      EscapeCharsIsEscaped(s[1..]);
      IsEscapedAppend(e, EscapeChars(s[1..]));
    }
  }

  /** Decodes the five entities `html.escape` writes and nothing else. */
  function Unescape(s: string): string
    decreases |s|
  {
    if s == [] then []
    else if s[0] != '&' then [s[0]] + Unescape(s[1..])
    else if HasAt(s, 0, "&amp;") then "&" + Unescape(s[5..])
    else if HasAt(s, 0, "&lt;") then "<" + Unescape(s[4..])
    else if HasAt(s, 0, "&gt;") then ">" + Unescape(s[4..])
    else if HasAt(s, 0, "&quot;") then "\"" + Unescape(s[6..])
    else if HasAt(s, 0, "&#x27;") then "'" + Unescape(s[6..])
    else "&" + Unescape(s[1..])
  }

  lemma UnescapeAmp(t: string)
    ensures Unescape("&amp;" + t) == "&" + Unescape(t)
  {
    var s := "&amp;" + t;
    assert s[..5] == "&amp;" && s[5..] == t;
  }

  lemma UnescapeLt(t: string)
    ensures Unescape("&lt;" + t) == "<" + Unescape(t)
  {
    var s := "&lt;" + t;
    assert s[..4] == "&lt;" && s[4..] == t;
    assert s[1] == 'l';
  }

  lemma UnescapeGt(t: string)
    ensures Unescape("&gt;" + t) == ">" + Unescape(t)
  {
    var s := "&gt;" + t;
    assert s[..4] == "&gt;" && s[4..] == t;
    assert s[1] == 'g';
  }

  lemma UnescapeQuot(t: string)
    ensures Unescape("&quot;" + t) == "\"" + Unescape(t)
  {
    var s := "&quot;" + t;
    assert s[..6] == "&quot;" && s[6..] == t;
    assert s[1] == 'q';
  }

  lemma UnescapeApos(t: string)
    ensures Unescape("&#x27;" + t) == "'" + Unescape(t)
  {
    var s := "&#x27;" + t;
    assert s[..6] == "&#x27;" && s[6..] == t;
    assert s[1] == '#';
  }

  lemma UnescapePlain(c: char, t: string)
    requires c != '&'
    ensures Unescape([c] + t) == [c] + Unescape(t)
  {
    var s := [c] + t;
    assert s[0] == c && s[1..] == t;
  }

  lemma UnescapeChar(c: char, t: string)
    ensures Unescape(EscapeChar(c) + t) == [c] + Unescape(t)
  {
    match c
    case '&' => UnescapeAmp(t);
    case '<' => UnescapeLt(t);
    case '>' => UnescapeGt(t);
    case '"' => UnescapeQuot(t);
    case '\'' => UnescapeApos(t);
    case _ => UnescapePlain(c, t);
  }

  lemma {:induction false} UnescapeEscapeChars(s: string)
    ensures Unescape(EscapeChars(s)) == s
  {
    if s != [] {
      UnescapeChar(s[0], EscapeChars(s[1..]));
      UnescapeEscapeChars(s[1..]);
    }
  }

  /** `html.escape(s)`: the five replacements in Python's order. The result is
      safe to embed and decodes back to `s`. */
  function Escape(s: string): (r: string)
    ensures r == EscapeChars(s)
    ensures IsEscaped(r)
    ensures Unescape(r) == s
  {
    EscapeStepsPerChar(s);
    EscapeCharsIsEscaped(s);
    UnescapeEscapeChars(s);
    EscapeSteps(s)
  }

  /** Escaping keeps the shape of a normalised title: it adds no whitespace,
      and it keeps a non-whitespace first and last character non-whitespace. */
  lemma {:induction false} EscapeKeepsShape(s: string)
    requires OnlySpaces(s) && Trimmed(s)
    ensures OnlySpaces(Escape(s)) && Trimmed(Escape(s))
  {
    EscapeCharsKeepsSpaces(s);
    if s != [] {
      var n := |s| - 1;
      assert s == s[..n] + [s[n]];
      EscapeCharsAppend(s[..n], [s[n]]);
      assert EscapeChars([s[n]]) == EscapeChar(s[n]);
      assert EscapeChars(s) == EscapeChar(s[0]) + EscapeChars(s[1..]);
    }
  }

  lemma {:induction false} EscapeCharsKeepsSpaces(s: string)
    requires OnlySpaces(s)
    ensures OnlySpaces(EscapeChars(s))
  {
    if s != [] {
      var e := EscapeChar(s[0]);
      EscapeCharsKeepsSpaces(s[1..]);
      assert OnlySpaces(e) by {
        forall i | 0 <= i < |e| && IsWs(e[i]) ensures e[i] == ' ' {
          assert e == [s[0]];
        }
      }
      OnlySpacesAppend(e, EscapeChars(s[1..]));
    }
  }

  lemma OnlySpacesAppend(a: string, b: string)
    requires OnlySpaces(a) && OnlySpaces(b)
    ensures OnlySpaces(a + b)
  {
    forall i | 0 <= i < |a + b| && IsWs((a + b)[i]) ensures (a + b)[i] == ' ' {
      if i < |a| {
        assert (a + b)[i] == a[i];
      } else {
        assert (a + b)[i] == b[i - |a|];
      }
    }
  }
}
