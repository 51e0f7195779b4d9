/** Rewriting the `pragma solidity` lines of a source text that ask for a newer compiler than the target. */
module Pragma {
  import opened Wrappers
  import opened Versions

  // ----- The pattern pragma\s+solidity\s+([^;]+); -----

  const PRAGMA := "pragma"
  const SOLIDITY := "solidity"

  /** What `\s` matches. */
  predicate IsSpace(c: char) {
    c == ' ' || c == '\t' || c == '\n' || c == '\r' || c == '\U{0C}'
  }

  /** What `strings.TrimSpace` strips: Unicode white space. */
  predicate IsBlank(c: char) {
    IsSpace(c) || c == '\U{0B}' || c == '\U{85}' || c == '\U{A0}' || c == '\U{1680}' || '\U{2000}' <= c <= '\U{200A}'
    || c == '\U{2028}' || c == '\U{2029}' || c == '\U{202F}' || c == '\U{205F}' || c == '\U{3000}'
  }

  function SpaceRun(s: string): (n: nat)
    ensures n <= |s| && (forall i :: 0 <= i < n ==> IsSpace(s[i])) && (n < |s| ==> !IsSpace(s[n]))
  {
    if s != "" && IsSpace(s[0]) then 1 + SpaceRun(s[1..]) else 0
  }

  /** The position of the first `;`, or the length. */
  function Semicolon(s: string): (n: nat)
    ensures n <= |s| && (forall i :: 0 <= i < n ==> s[i] != ';') && (n < |s| ==> s[n] == ';')
  {
    if s == "" || s[0] == ';' then 0 else 1 + Semicolon(s[1..])
  }

  datatype Match = Match(length: nat, capture: string)

  /** The capture: the `e` characters from `at` on, or, when there are none, the space before. */
  function CaptureAt(s: string, at: nat, e: nat): string
    requires 0 < at && at + e < |s|
  {
    if e > 0 then s[at..at + e] else s[at - 1..at]
  }

  /** The rest of the match, from right after the word `solidity`. */
  function BodyAt(s: string, at: nat): (m: Option<Match>)
    requires at <= |s|
    ensures m.Some? ==> at < m.value.length <= |s|
  {
    var k := SpaceRun(s[at..]);
    var e := Semicolon(s[at + k..]);
    if k == 0 || at + k + e == |s| then None
    else if e > 0 || k > 1 then Some(Match(at + k + e + 1, CaptureAt(s, at + k, e)))
    else None
  }

  /**
   * The match at the start of `s`. The runs of spaces are taken whole; only when nothing but `;` follows the second
   * does it give its last space to the capture.
   */
  function MatchAt(s: string): (m: Option<Match>)
    ensures m.Some? ==> 0 < m.value.length <= |s|
  {
    if !(PRAGMA <= s) then None
    else
      var k := SpaceRun(s[6..]);
      if k == 0 || !(SOLIDITY <= s[6 + k..]) then None else BodyAt(s, 14 + k)
  }

  // ----- The rewrite -----

  function TrimLeft(s: string): string {
    if s != "" && IsBlank(s[0]) then TrimLeft(s[1..]) else s
  }

  function TrimRight(s: string): string {
    if s != "" && IsBlank(s[|s| - 1]) then TrimRight(s[..|s| - 1]) else s
  }

  function Trim(s: string): string {
    TrimRight(TrimLeft(s))
  }

  function DigitRun(s: string): (n: nat)
    ensures n <= |s|
  {
    if s != "" && '0' <= s[0] <= '9' then 1 + DigitRun(s[1..]) else 0
  }

  /** The digits, dot, digits, dot, digits at the start of `s`. */
  function Triple(s: string): Option<string> {
    var a := DigitRun(s);
    if a == 0 || a == |s| || s[a] != '.' then None
    else
      var b := DigitRun(s[a + 1..]);
      if b == 0 || a + 1 + b == |s| || s[a + 1 + b] != '.' then None
      else
        var c := DigitRun(s[a + b + 2..]);
        if c == 0 then None else Some(s[..a + b + 2 + c])
  }

  /** The version after the first `>=` that has one right behind it. */
  function FirstBound(s: string): Option<string> {
    if |s| < 2 then None
    else if ">=" <= s && Triple(s[2..]).Some? then Triple(s[2..])
    else FirstBound(s[1..])
  }

  /** The version a pragma asks for, as far as the code recognises one. */
  function Asked(capture: string): Option<string> {
    var v := Trim(capture);
    if "^" <= v then Some(Trim(v[1..])) else FirstBound(v)
  }

  predicate Above(num: string -> int, capture: string, target: string) {
    Asked(capture).Some? && Compare(num, Asked(capture).value, target) > 0
  }

  function Adjusted(target: string): string {
    "pragma solidity ^" + target + ";"
  }

  function Replacement(num: string -> int, s: string, m: Match, target: string): string
    requires m.length <= |s|
  {
    if Above(num, m.capture, target) then Adjusted(target) else s[..m.length]
  }

  function AdjustPragmaVersion(num: string -> int, s: string, target: string): string
    decreases |s|
  {
    if s == "" then ""
    else
      match MatchAt(s)
      case None => [s[0]] + AdjustPragmaVersion(num, s[1..], target)
      case Some(m) => Replacement(num, s, m, target) + AdjustPragmaVersion(num, s[m.length..], target)
  }

  /** No pragma that the pattern finds in `s` asks for more than the target. */
  predicate Settled(num: string -> int, s: string, target: string)
    decreases |s|
  {
    s == "" ||
    match MatchAt(s)
    case None => Settled(num, s[1..], target)
    case Some(m) => !Above(num, m.capture, target) && Settled(num, s[m.length..], target)
  }

  /** A compiler version as `solc --version` prints it: digits and dots. */
  predicate IsVersion(t: string) {
    forall i :: 0 <= i < |t| ==> '0' <= t[i] <= '9' || t[i] == '.'
  }

  // ----- A match is decided by its own characters -----

  ghost predicate Word(s: string, at: nat, w: string) {
    at + |w| <= |s| && forall i :: 0 <= i < |w| ==> s[at + i] == w[i]
  }

  ghost predicate Spaces(s: string, lo: nat, hi: nat) {
    lo < hi <= |s| && forall i :: lo <= i < hi ==> IsSpace(s[i])
  }

  /** Words and spaces up to where the version starts: `k` spaces, then `j` spaces. */
  ghost predicate Header(s: string, k: nat, j: nat) {
    && Word(s, 0, PRAGMA) && Spaces(s, 6, 6 + k)
    && Word(s, 6 + k, SOLIDITY) && Spaces(s, 14 + k, 14 + k + j)
    && 14 + k + j < |s| && !IsSpace(s[14 + k + j])
  }

  /** The version: `e` characters and a semicolon, from `at` on. */
  ghost predicate Body(s: string, at: nat, j: nat, e: nat) {
    && at + e < |s| && (e > 0 || j > 1)
    && (forall i :: at <= i < at + e ==> s[i] != ';') && s[at + e] == ';'
  }

  lemma WordIsPrefix(s: string, at: nat, w: string)
    requires at <= |s|
    ensures Word(s, at, w) <==> w <= s[at..]
  {
    if w <= s[at..] {
      assert forall i :: 0 <= i < |w| ==> s[at + i] == s[at..][i];
    }
  }

  lemma SpaceRunIs(s: string, at: nat, n: nat)
    requires at + n < |s| && (n > 0 ==> Spaces(s, at, at + n)) && !IsSpace(s[at + n])
    ensures SpaceRun(s[at..]) == n
  {
    assert forall i :: 0 <= i <= n ==> s[at..][i] == s[at + i];
  }

  lemma SemicolonIs(s: string, at: nat, n: nat)
    requires at + n < |s| && (forall i :: at <= i < at + n ==> s[i] != ';') && s[at + n] == ';'
    ensures Semicolon(s[at..]) == n
  {
    assert forall i :: 0 <= i <= n ==> s[at..][i] == s[at + i];
  }

  lemma HeaderFound(s: string, k: nat, j: nat)
    requires Header(s, k, j)
    ensures MatchAt(s) == BodyAt(s, 14 + k) && SpaceRun(s[14 + k..]) == j
  {
    hide BodyAt;
    WordIsPrefix(s, 0, PRAGMA);
    assert s[0..] == s;
    assert s[6 + k] == SOLIDITY[0];
    SpaceRunIs(s, 6, k);
    WordIsPrefix(s, 6 + k, SOLIDITY);
    SpaceRunIs(s, 14 + k, j);
  }

  lemma BodyFound(s: string, at: nat, j: nat, e: nat)
    requires at + j <= |s| && j > 0 && SpaceRun(s[at..]) == j && Body(s, at + j, j, e)
    ensures BodyAt(s, at) == Some(Match(at + j + e + 1, CaptureAt(s, at + j, e)))
  {
    SemicolonIs(s, at + j, e);
    hide SpaceRun, Semicolon, CaptureAt;
  }

  lemma ShapeMatches(s: string, k: nat, j: nat, e: nat)
    requires Header(s, k, j) && Body(s, 14 + k + j, j, e)
    ensures MatchAt(s) == Some(Match(15 + k + j + e, CaptureAt(s, 14 + k + j, e)))
  {
    hide MatchAt, BodyAt, CaptureAt, SpaceRun;
    HeaderFound(s, k, j);
    BodyFound(s, 14 + k, j, e);
  }

  lemma MatchHasHeader(s: string) returns (k: nat, j: nat)
    requires MatchAt(s).Some?
    ensures Header(s, k, j) && MatchAt(s) == BodyAt(s, 14 + k) && SpaceRun(s[14 + k..]) == j
  {
    k := SpaceRun(s[6..]);
    j := SpaceRun(s[14 + k..]);
    assert s[0..] == s;
    WordIsPrefix(s, 0, PRAGMA);
    WordIsPrefix(s, 6 + k, SOLIDITY);
    forall i | 6 <= i < 6 + k ensures IsSpace(s[i]) { assert s[i] == s[6..][i - 6]; }
    forall i | 14 + k <= i < 14 + k + j ensures IsSpace(s[i]) { assert s[i] == s[14 + k..][i - 14 - k]; }
    assert s[14 + k + j] == s[14 + k..][j];
  }

  lemma BodyHasShape(s: string, at: nat, j: nat) returns (e: nat)
    requires at + j < |s| && SpaceRun(s[at..]) == j && BodyAt(s, at).Some?
    ensures Body(s, at + j, j, e) && BodyAt(s, at).value == Match(at + j + e + 1, CaptureAt(s, at + j, e))
  {
    e := Semicolon(s[at + j..]);
    forall i | at + j <= i < at + j + e ensures s[i] != ';' { assert s[i] == s[at + j..][i - at - j]; }
    assert s[at + j + e] == s[at + j..][e];
  }

  lemma MatchHasShape(s: string) returns (k: nat, j: nat, e: nat)
    requires MatchAt(s).Some?
    ensures 14 + k + j + e < |s| && Header(s, k, j) && Body(s, 14 + k + j, j, e)
    ensures MatchAt(s).value == Match(15 + k + j + e, CaptureAt(s, 14 + k + j, e))
  {
    hide MatchAt, BodyAt, CaptureAt, SpaceRun;
    k, j := MatchHasHeader(s);
    e := BodyHasShape(s, 14 + k, j);
  }

  /** Header and body are decided by the characters up to the semicolon. */
  lemma ShapeIsLocal(s: string, t: string, k: nat, j: nat, e: nat)
    requires Header(s, k, j) && Body(s, 14 + k + j, j, e)
    requires 15 + k + j + e <= |t| && 15 + k + j + e <= |s| && s[..15 + k + j + e] == t[..15 + k + j + e]
    ensures Header(t, k, j) && Body(t, 14 + k + j, j, e)
    ensures CaptureAt(t, 14 + k + j, e) == CaptureAt(s, 14 + k + j, e)
  {
    var n := 15 + k + j + e;
    forall i | 0 <= i < n ensures s[i] == t[i] { assert s[i] == s[..n][i] && t[i] == t[..n][i]; }
  }

  /** What follows a match does not change it. */
  lemma MatchIsLocal(s: string, x: string)
    requires MatchAt(s).Some?
    ensures var m := MatchAt(s).value; MatchAt(s[..m.length] + x) == Some(m)
  {
    hide MatchAt, Header, Body, CaptureAt;
    var k, j, e := MatchHasShape(s);
    var w := s[..15 + k + j + e] + x;
    assert w[..15 + k + j + e] == s[..15 + k + j + e];
    ShapeIsLocal(s, w, k, j, e);
    ShapeMatches(w, k, j, e);
  }

  // ----- The rewrite opens no new match -----

  /** A word that reaches past `p` would have the `p` of the pragma behind it somewhere after its first letter. */
  lemma WordEndsBefore(p: string, y: string, at: nat, w: string)
    requires (w == PRAGMA && at < |p|) || (w == SOLIDITY && at <= |p|)
    requires Word(p + y, at, w) && y != "" && y[0] == 'p'
    ensures at + |w| <= |p|
  {
    assert forall i :: 1 <= i < |PRAGMA| ==> PRAGMA[i] != 'p';
    assert forall i :: 0 <= i < |SOLIDITY| ==> SOLIDITY[i] != 'p';
    assert forall i :: at <= i < at + |w| ==> (p + y)[i] == w[i - at];
    assert (p + y)[|p|] == 'p';
  }

  lemma HeaderEndsBefore(p: string, y: string, k: nat, j: nat)
    requires p != "" && y != "" && y[0] == 'p' && Header(p + y, k, j)
    ensures 14 + k + j <= |p|
  {
    var t := p + y;
    assert t[|p|] == 'p' && !IsSpace('p');
    WordEndsBefore(p, y, 0, PRAGMA);
    assert 6 + k <= |p|;
    WordEndsBefore(p, y, 6 + k, SOLIDITY);
  }

  lemma HeaderMoves(p: string, x: string, y: string, k: nat, j: nat)
    requires Header(p + y, k, j) && 14 + k + j <= |p| && x != "" && y != "" && x[0] == y[0]
    ensures Header(p + x, k, j) && (p + x)[14 + k + j] == (p + y)[14 + k + j]
  {
    forall i | 0 <= i <= |p| ensures (p + x)[i] == (p + y)[i] {}
  }

  lemma NextSemicolon(p: string, x: string, at: nat) returns (f: nat)
    requires at <= |p| && ';' in x
    ensures at + f < |p + x| && (p + x)[at + f] == ';' && forall i :: at <= i < at + f ==> (p + x)[i] != ';'
  {
    var s := p + x;
    f := Semicolon(s[at..]);
    hide Semicolon;
    var i :| 0 <= i < |x| && x[i] == ';';
    assert s[at..][|p| + i - at] == s[|p| + i] == ';';
    forall i | at <= i < at + f ensures s[i] != ';' { assert s[i] == s[at..][i - at]; }
    assert s[at + f] == s[at..][f];
  }

  /** A text before a pragma starts a match, or does not, whatever that pragma goes on to say. */
  lemma NoNewMatch(p: string, x: string, y: string)
    requires p != "" && x != "" && y != "" && x[0] == y[0] == 'p' && ';' in x
    requires MatchAt(p + y).Some?
    ensures MatchAt(p + x).Some?
  {
    hide MatchAt;
    var k, j, e := MatchHasShape(p + y);
    HeaderEndsBefore(p, y, k, j);
    HeaderMoves(p, x, y, k, j);
    hide Header;
    var f := NextSemicolon(p, x, 14 + k + j);
    ShapeMatches(p + x, k, j, f);
  }

  lemma ReplacementStarts(num: string -> int, s: string, target: string)
    requires MatchAt(s).Some?
    ensures s[0] == 'p' && ';' in s
    ensures var r := Replacement(num, s, MatchAt(s).value, target); r != "" && r[0] == 'p'
  {
    var k, j, e := MatchHasShape(s);
    hide MatchAt, Above;
    assert s[0] == PRAGMA[0];
    assert s[14 + k + j + e] in s;
    assert Adjusted(target)[0] == "pragma solidity ^"[0];
  }

  /**
   * A text and its rewriting: the same up to `p`; from there both are empty, or both start with a `p` and the text has
   * a semicolon.
   */
  ghost predicate Copied(s: string, out: string, p: string, x: string, y: string) {
    && s == p + x && out == p + y
    && ((x == "" && y == "") || (x != "" && y != "" && x[0] == y[0] == 'p' && ';' in x))
  }

  lemma CopiedLonger(c: char, s: string, out: string, p: string, x: string, y: string)
    requires Copied(s, out, p, x, y)
    ensures Copied([c] + s, [c] + out, [c] + p, x, y)
  {
    assert [c] + (p + x) == ([c] + p) + x;
    assert [c] + (p + y) == ([c] + p) + y;
  }

  lemma CopiedWhole(s: string, out: string)
    requires s != "" && out != "" && s[0] == out[0] == 'p' && ';' in s
    ensures Copied(s, out, "", s, out)
  {
    assert s == "" + s && out == "" + out;
  }

  lemma UnfoldedAtMatch(num: string -> int, s: string, target: string)
    requires s != "" && MatchAt(s).Some?
    ensures var m := MatchAt(s).value;
            AdjustPragmaVersion(num, s, target)
            == Replacement(num, s, m, target) + AdjustPragmaVersion(num, s[m.length..], target)
  {
    hide MatchAt, Replacement;
  }

  lemma CopiedAtMatch(num: string -> int, s: string, target: string)
    requires s != "" && MatchAt(s).Some?
    ensures Copied(s, AdjustPragmaVersion(num, s, target), "", s, AdjustPragmaVersion(num, s, target))
  {
    hide MatchAt, Replacement, AdjustPragmaVersion, Copied;
    ReplacementStarts(num, s, target);
    UnfoldedAtMatch(num, s, target);
    CopiedWhole(s, AdjustPragmaVersion(num, s, target));
  }

  lemma Unfolded(num: string -> int, s: string, target: string)
    requires s != "" && MatchAt(s).None?
    ensures AdjustPragmaVersion(num, s, target) == [s[0]] + AdjustPragmaVersion(num, s[1..], target)
    ensures s == [s[0]] + s[1..]
  {
    hide MatchAt;
  }

  /** Up to its first match a text is copied. */
  lemma {:induction false} CopiedUpToMatch(num: string -> int, s: string, target: string)
      returns (p: string, x: string, y: string)
    ensures Copied(s, AdjustPragmaVersion(num, s, target), p, x, y)
    decreases |s|
  {
    if s == "" {
      p, x, y := "", "", "";
    } else if MatchAt(s).None? {
      Unfolded(num, s, target);
      hide MatchAt, AdjustPragmaVersion, Copied;
      p, x, y := CopiedUpToMatch(num, s[1..], target);
      CopiedLonger(s[0], s[1..], AdjustPragmaVersion(num, s[1..], target), p, x, y);
      p := [s[0]] + p;
    } else {
      p, x, y := "", s, AdjustPragmaVersion(num, s, target);
      CopiedAtMatch(num, s, target);
      hide MatchAt, AdjustPragmaVersion, Copied;
    }
  }

  lemma AdjustedMatches(target: string, x: string)
    requires IsVersion(target)
    ensures MatchAt(Adjusted(target) + x) == Some(Match(|Adjusted(target)|, "^" + target))
  {
    var head := "pragma solidity ^";
    var s := Adjusted(target) + x;
    assert forall i :: 0 <= i < 17 ==> s[i] == head[i];
    assert forall i :: 17 <= i < 17 + |target| ==> s[i] == target[i - 17];
    assert s[17 + |target|] == ';';
    assert s[16..17 + |target|] == "^" + target;
    ShapeMatches(s, 1, 1, 1 + |target|);
  }

  lemma NotBlankStays(s: string)
    requires s == "" || (!IsBlank(s[0]) && !IsBlank(s[|s| - 1]))
    ensures Trim(s) == s
  {
  }

  lemma AdjustedIsNotAbove(num: string -> int, target: string)
    requires IsVersion(target)
    ensures !Above(num, "^" + target, target)
  {
    var v := "^" + target;
    NotBlankStays(v);
    NotBlankStays(target);
    assert v[1..] == target;
    CompareReflexive(num, target);
  }

  /** A character that starts no match still starts none when the text behind it is rewritten. */
  lemma UnmatchedStays(num: string -> int, s: string, target: string)
    requires s != "" && MatchAt(s).None?
    ensures MatchAt([s[0]] + AdjustPragmaVersion(num, s[1..], target)).None?
  {
    hide MatchAt, AdjustPragmaVersion;
    var p, x, y := CopiedUpToMatch(num, s[1..], target);
    var q := [s[0]] + p;
    assert s == q + x && [s[0]] + AdjustPragmaVersion(num, s[1..], target) == q + y;
    if MatchAt(q + y).Some? && x != "" { NoNewMatch(q, x, y); }
  }

  /** A rewritten match is a match again, and asks for no more than the target. */
  lemma ReplacementSettles(num: string -> int, s: string, target: string, rest: string)
    requires IsVersion(target) && MatchAt(s).Some?
    ensures var r := Replacement(num, s, MatchAt(s).value, target);
            var m := MatchAt(r + rest);
            m.Some? && m.value.length == |r| && !Above(num, m.value.capture, target)
  {
    MatchIsLocal(s, rest);
    AdjustedMatches(target, rest);
    AdjustedIsNotAbove(num, target);
    hide MatchAt, Above, Adjusted;
  }

  /** After the rewrite no pragma the pattern finds asks for more than the target. */
  lemma {:induction false} AdjustSettles(num: string -> int, s: string, target: string)
    requires IsVersion(target)
    ensures Settled(num, AdjustPragmaVersion(num, s, target), target)
    decreases |s|
  {
    hide MatchAt, Above, Replacement;
    if s != "" {
      if MatchAt(s).None? {
        AdjustSettles(num, s[1..], target);
        UnmatchedStays(num, s, target);
        assert AdjustPragmaVersion(num, s, target)[1..] == AdjustPragmaVersion(num, s[1..], target);
      } else {
        var m := MatchAt(s).value;
        var r, rest := Replacement(num, s, m, target), AdjustPragmaVersion(num, s[m.length..], target);
        AdjustSettles(num, s[m.length..], target);
        ReplacementSettles(num, s, target, rest);
        assert (r + rest)[|r|..] == rest;
      }
    }
  }

  lemma {:induction false} SettledIsFixed(num: string -> int, s: string, target: string)
    requires Settled(num, s, target)
    ensures AdjustPragmaVersion(num, s, target) == s
    decreases |s|
  {
    hide MatchAt, Above;
    if s != "" {
      if MatchAt(s).None? {
        SettledIsFixed(num, s[1..], target);
        assert s == [s[0]] + s[1..];
      } else {
        var m := MatchAt(s).value;
        SettledIsFixed(num, s[m.length..], target);
        assert s == s[..m.length] + s[m.length..];
      }
    }
  }

  /** Adjusting twice is adjusting once. */
  lemma AdjustIdempotent(num: string -> int, s: string, target: string)
    requires IsVersion(target)
    ensures AdjustPragmaVersion(num, AdjustPragmaVersion(num, s, target), target) == AdjustPragmaVersion(num, s, target)
  {
    AdjustSettles(num, s, target);
    SettledIsFixed(num, AdjustPragmaVersion(num, s, target), target);
  }

  /** A text is left alone exactly when nothing in it asks for more than the target. */
  lemma {:induction false} SettledTextUnchanged(num: string -> int, s: string, target: string)
    requires IsVersion(target)
    ensures Settled(num, s, target) <==> AdjustPragmaVersion(num, s, target) == s
  {
    if Settled(num, s, target) {
      SettledIsFixed(num, s, target);
    } else {
      AdjustSettles(num, s, target);
    }
  }

  // ----- What happens to a pragma, by its form -----

  /** The spaces of the pattern and the blanks that are trimmed, by code point. */
  lemma SpacesAre(c: char)
    ensures IsSpace(c) <==> c as int in {9, 10, 12, 13, 32}
    ensures IsBlank(c)
       <==> 9 <= c as int <= 13 || 8192 <= c as int <= 8202
            || c as int in {32, 133, 160, 5760, 8232, 8233, 8239, 8287, 12288}
  {
  }

  ghost predicate AllSpace(s: string) {
    forall i :: 0 <= i < |s| ==> IsSpace(s[i])
  }

  ghost predicate AllBlank(s: string) {
    forall i :: 0 <= i < |s| ==> IsBlank(s[i])
  }

  predicate IsDigit(c: char) {
    '0' <= c <= '9'
  }

  ghost predicate AllDigits(s: string) {
    s != "" && forall i :: 0 <= i < |s| ==> IsDigit(s[i])
  }

  /** A pragma with these gaps and this version part. */
  function PragmaText(gap1: string, gap2: string, body: string): string {
    "pragma" + gap1 + "solidity" + gap2 + body + ";"
  }

  /**
   * Gaps of spaces, and a version part with something in it, that starts after the second gap and ends at the
   * semicolon.
   */
  ghost predicate IsPragma(gap1: string, gap2: string, body: string) {
    && gap1 != "" && AllSpace(gap1) && gap2 != "" && AllSpace(gap2)
    && body != "" && !IsSpace(body[0]) && ';' !in body
  }

  lemma PragmaMatches(gap1: string, gap2: string, body: string, rest: string)
    requires IsPragma(gap1, gap2, body)
    ensures MatchAt(PragmaText(gap1, gap2, body) + rest) == Some(Match(|PragmaText(gap1, gap2, body)|, body))
  {
    var s := PragmaText(gap1, gap2, body) + rest;
    var k, j, e := |gap1|, |gap2|, |body|;
    hide MatchAt, IsSpace;
    assert forall i :: 0 <= i < 6 ==> s[i] == PRAGMA[i];
    assert forall i :: 6 <= i < 6 + k ==> s[i] == gap1[i - 6];
    assert forall i :: 0 <= i < 8 ==> s[6 + k + i] == SOLIDITY[i];
    assert forall i :: 14 + k <= i < 14 + k + j ==> s[i] == gap2[i - 14 - k];
    assert forall i :: 14 + k + j <= i < 14 + k + j + e ==> s[i] == body[i - 14 - k - j];
    assert s[14 + k + j + e] == ';';
    assert s[14 + k + j..14 + k + j + e] == body;
    ShapeMatches(s, k, j, e);
  }

  /** A pragma is rewritten or left as it is, and then the rest of the text is adjusted. */
  lemma PragmaAdjusts(num: string -> int, gap1: string, gap2: string, body: string, rest: string, target: string)
    requires IsPragma(gap1, gap2, body)
    ensures var text := PragmaText(gap1, gap2, body);
            AdjustPragmaVersion(num, text + rest, target)
            == (if Above(num, body, target) then "pragma solidity ^" + target + ";" else text)
               + AdjustPragmaVersion(num, rest, target)
  {
    var text := PragmaText(gap1, gap2, body);
    var s := text + rest;
    PragmaMatches(gap1, gap2, body, rest);
    assert s[..|text|] == text && s[|text|..] == rest;
    hide MatchAt, Above, PragmaText;
  }

  lemma AboveMeans(num: string -> int, v: string, target: string)
    ensures Compare(num, v, target) > 0 <==> Decides(num, Split(v, '.'), Split(target, '.'), 1)
  {
    var p, q := Split(v, '.'), Split(target, '.');
    hide Compare, Split;
    if Decides(num, p, q, 1) { DecidesOnce(num, p, q, Compare(num, v, target), 1); }
  }

  /** What trimming leaves: the stretch between the first and the last character that is not blank. */
  lemma {:induction false} TrimLeftIs(pre: string, core: string)
    requires AllBlank(pre) && (core == "" || !IsBlank(core[0]))
    ensures TrimLeft(pre + core) == core
  {
    if pre == "" {
      assert pre + core == core;
    } else {
      TrimLeftIs(pre[1..], core);
      assert (pre + core)[1..] == pre[1..] + core;
    }
  }

  lemma {:induction false} TrimRightIs(core: string, post: string)
    requires AllBlank(post) && (core == "" || !IsBlank(core[|core| - 1]))
    ensures TrimRight(core + post) == core
  {
    if post == "" {
      assert core + post == core;
    } else {
      TrimRightIs(core, post[..|post| - 1]);
      assert (core + post)[..|core + post| - 1] == core + post[..|post| - 1];
    }
  }

  lemma TrimIs(pre: string, core: string, post: string)
    requires AllBlank(pre) && AllBlank(post)
    requires core != "" && !IsBlank(core[0]) && !IsBlank(core[|core| - 1])
    ensures Trim(pre + core + post) == core
  {
    assert pre + core + post == pre + (core + post);
    TrimLeftIs(pre, core + post);
    TrimRightIs(core, post);
  }

  lemma CaretAsks(mid: string, v: string, tail: string)
    requires AllBlank(mid) && AllBlank(tail) && v != "" && !IsBlank(v[0]) && !IsBlank(v[|v| - 1])
    ensures Asked("^" + mid + v + tail) == Some(v)
  {
    hide Trim, FirstBound;
    var core := "^" + mid + v;
    assert "^" + mid + v + tail == "" + core + tail && core[|core| - 1] == v[|v| - 1] && core[0] == '^';
    TrimIs("", core, tail);
    assert core[1..] == mid + v + "";
    TrimIs(mid, v, "");
  }

  /** A pragma that asks for a version: rewritten exactly when that is above the target. */
  lemma AskingPragma(num: string -> int, gap1: string, gap2: string, body: string, v: string,
                     rest: string, target: string)
    requires IsPragma(gap1, gap2, body) && Asked(body) == Some(v)
    ensures var text := PragmaText(gap1, gap2, body);
            AdjustPragmaVersion(num, text + rest, target)
            == (if Decides(num, Split(v, '.'), Split(target, '.'), 1) then "pragma solidity ^" + target + ";" else text)
               + AdjustPragmaVersion(num, rest, target)
  {
    hide AdjustPragmaVersion, PragmaText, Decides, Compare, Asked, Split, IsPragma;
    PragmaAdjusts(num, gap1, gap2, body, rest, target);
    AboveMeans(num, v, target);
  }

  /** A caret pragma: rewritten exactly when its version is above the target. */
  lemma CaretPragma(num: string -> int, gap1: string, gap2: string, mid: string, v: string, tail: string,
                    rest: string, target: string)
    requires IsPragma(gap1, gap2, "^" + mid + v + tail) && AllBlank(mid) && AllBlank(tail)
    requires v != "" && !IsBlank(v[0]) && !IsBlank(v[|v| - 1])
    ensures var text := PragmaText(gap1, gap2, "^" + mid + v + tail);
            AdjustPragmaVersion(num, text + rest, target)
            == (if Decides(num, Split(v, '.'), Split(target, '.'), 1) then "pragma solidity ^" + target + ";" else text)
               + AdjustPragmaVersion(num, rest, target)
  {
    hide AdjustPragmaVersion, PragmaText, Decides, Asked, Split, IsPragma;
    CaretAsks(mid, v, tail);
    AskingPragma(num, gap1, gap2, "^" + mid + v + tail, v, rest, target);
  }

  // ----- Lower bounds -----

  lemma {:induction false} DigitRunIs(d: string, r: string)
    requires (forall i :: 0 <= i < |d| ==> IsDigit(d[i])) && (r == "" || !IsDigit(r[0]))
    ensures DigitRun(d + r) == |d|
  {
    if d == "" {
      assert d + r == r;
    } else {
      DigitRunIs(d[1..], r);
      assert (d + r)[1..] == d[1..] + r;
    }
  }

  /** A run of digits ends where it does. */
  lemma {:induction false} DigitRunMeans(s: string)
    ensures forall i :: 0 <= i < DigitRun(s) ==> IsDigit(s[i])
    ensures DigitRun(s) < |s| ==> !IsDigit(s[DigitRun(s)])
  {
    if s != "" && IsDigit(s[0]) {
      DigitRunMeans(s[1..]);
      assert forall i :: 1 <= i < DigitRun(s) ==> s[i] == s[1..][i - 1];
    }
  }

  /** Three numbers with dots between them. */
  function Version3(a: string, b: string, c: string): string {
    a + "." + b + "." + c
  }

  lemma Version3Groups(a: string, b: string, c: string, r: string)
    ensures Version3(a, b, c) + r == a + ("." + (b + ("." + (c + r))))
  {
  }

  lemma TwoDots(s: string, a: string, b: string, t: string)
    requires s == a + ("." + (b + ("." + t)))
    ensures |s| == |a| + |b| + 2 + |t| && s[|a|] == '.' && s[|a| + 1..] == b + ("." + t)
    ensures s[|a| + 1 + |b|] == '.' && s[|a| + |b| + 2..] == t
  {
  }

  /** A number ends at a dot. */
  lemma DotAfter(d: string, t: string)
    requires AllDigits(d)
    ensures DigitRun(d + ("." + t)) == |d|
  {
    assert ("." + t)[0] == '.' && !IsDigit('.');
    DigitRunIs(d, "." + t);
  }

  lemma TripleIs(a: string, b: string, c: string, r: string)
    requires AllDigits(a) && AllDigits(b) && AllDigits(c) && (r == "" || !IsDigit(r[0]))
    ensures Triple(Version3(a, b, c) + r) == Some(Version3(a, b, c))
  {
    var s := Version3(a, b, c) + r;
    assert s[..|Version3(a, b, c)|] == Version3(a, b, c) && |Version3(a, b, c)| == |a| + |b| + 2 + |c|;
    Version3Groups(a, b, c, r);
    hide Version3, DigitRun, IsDigit;
    TwoDots(s, a, b, c + r);
    DotAfter(a, b + ("." + (c + r)));
    DotAfter(b, c + r);
    DigitRunIs(c, r);
  }

  function Bound(t: string): string {
    ">=" + t
  }

  lemma BoundStarts(t: string)
    ensures |Bound(t)| == 2 + |t| && ">=" <= Bound(t) && Bound(t)[2..] == t && Bound(t)[0] == '>'
  {
  }

  lemma BoundLater(pre: string, t: string)
    requires pre != "" && '>' !in pre
    ensures |pre + t| >= 2 ==> FirstBound(pre + t) == FirstBound(pre[1..] + t)
  {
    hide Triple;
    assert (pre + t)[0] == pre[0] && pre[0] in pre;
    assert (pre + t)[1..] == pre[1..] + t;
  }

  /** Text without a `>` before the first bound does not matter. */
  lemma {:induction false} FirstBoundIs(pre: string, x: string, t: string)
    requires '>' !in pre && Triple(t) == Some(x)
    ensures FirstBound(pre + Bound(t)) == Some(x)
  {
    BoundStarts(t);
    hide Triple, Bound;
    if pre == "" {
      assert pre + Bound(t) == Bound(t);
    } else {
      FirstBoundIs(pre[1..], x, t);
      BoundLater(pre, Bound(t));
    }
  }

  /** A text is a blank head and the rest of it; trimming on the left takes the head. */
  lemma {:induction false} LeftSplit(s: string) returns (pre: string, core: string)
    ensures s == pre + core && AllBlank(pre) && (core == "" || !IsBlank(core[0])) && TrimLeft(s) == core
  {
    if s != "" && IsBlank(s[0]) {
      pre, core := LeftSplit(s[1..]);
      assert s == ([s[0]] + pre) + core;
      pre := [s[0]] + pre;
    } else {
      pre, core := "", s;
      assert s == pre + core;
    }
  }

  lemma {:induction false} RightSplit(s: string) returns (core: string, post: string)
    ensures s == core + post && AllBlank(post) && (core == "" || !IsBlank(core[|core| - 1])) && TrimRight(s) == core
  {
    if s != "" && IsBlank(s[|s| - 1]) {
      core, post := RightSplit(s[..|s| - 1]);
      assert s == core + (post + [s[|s| - 1]]);
      post := post + [s[|s| - 1]];
    } else {
      core, post := s, "";
      assert s == core + post;
    }
  }

  lemma Regrouped(a: string, b: string, c: string, d: string, e: string, f: string)
    ensures (a + b) + (c + (d + (e + f))) == a + ((b + (c + (d + e))) + f)
  {
  }

  lemma Ends(a: string, b: string)
    ensures a != "" ==> (a + b)[0] == a[0]
    ensures a == "" ==> a + b == b
    ensures b != "" ==> (a + b)[|a + b| - 1] == b[|b| - 1]
    ensures b == "" ==> a + b == a
  {
  }

  lemma BoundEnds(head: string, x: string, tail: string)
    requires x != "" && !IsBlank(x[|x| - 1])
    requires (head == "" || !IsBlank(head[0])) && (tail == "" || !IsBlank(tail[|tail| - 1]))
    ensures var core := head + Bound(x + tail);
            core != "" && !IsBlank(core[0]) && !IsBlank(core[|core| - 1])
  {
    assert !IsBlank('>');
    hide IsBlank;
    Ends(head, Bound(x + tail));
    Ends(">=", x + tail);
    Ends(x, tail);
  }

  /** Trimming a version part with a bound in it takes blanks off both ends, and the bound stays. */
  lemma BoundTrims(pre: string, x: string, post: string) returns (head: string, tail: string)
    requires '>' !in pre && x != "" && !IsBlank(x[|x| - 1])
    ensures Trim(pre + Bound(x + post)) == head + Bound(x + tail)
    ensures '>' !in head && (head == "" || head[0] in pre) && (tail == "" || (post != "" && tail[0] == post[0]))
  {
    var blank, last;
    blank, head := LeftSplit(pre);
    tail, last := RightSplit(post);
    hide TrimLeft, TrimRight, IsBlank;
    assert forall c :: c in head ==> c in pre;
    Ends(tail, last);
    Regrouped(blank, head, ">=", x, tail, last);
    var core := head + Bound(x + tail);
    BoundEnds(head, x, tail);
    Ends(core, last);
    TrimLeftIs(blank, core + last);
    TrimRightIs(core, last);
  }

  lemma BoundAsks(pre: string, a: string, b: string, c: string, post: string)
    requires '>' !in pre && '^' !in pre && AllDigits(a) && AllDigits(b) && AllDigits(c)
    requires post == "" || !IsDigit(post[0])
    ensures Asked(pre + Bound(Version3(a, b, c) + post)) == Some(Version3(a, b, c))
  {
    var x := Version3(a, b, c);
    Ends(a + "." + b + ".", c);
    assert IsDigit(x[|x| - 1]) && !IsBlank(x[|x| - 1]);
    var head, tail := BoundTrims(pre, x, post);
    TripleIs(a, b, c, tail);
    FirstBoundIs(head, x, x + tail);
    BoundStarts(x + tail);
    Ends(head, Bound(x + tail));
    hide Trim, FirstBound, Bound, Version3, IsBlank, IsDigit;
    assert "^"[0] == '^';
  }

  /**
   * A pragma with lower bounds: rewritten exactly when the first one, if a version of three numbers is right behind
   * it, is above the target. What comes before it, spaces, and further bounds do not matter.
   */
  lemma BoundPragma(num: string -> int, gap1: string, gap2: string, pre: string, a: string, b: string, c: string,
                    post: string, rest: string, target: string)
    requires IsPragma(gap1, gap2, pre + Bound(Version3(a, b, c) + post)) && '>' !in pre && '^' !in pre
    requires AllDigits(a) && AllDigits(b) && AllDigits(c) && (post == "" || !IsDigit(post[0]))
    ensures var v := Version3(a, b, c);
            var text := PragmaText(gap1, gap2, pre + Bound(v + post));
            AdjustPragmaVersion(num, text + rest, target)
            == (if Decides(num, Split(v, '.'), Split(target, '.'), 1) then "pragma solidity ^" + target + ";" else text)
               + AdjustPragmaVersion(num, rest, target)
  {
    hide AdjustPragmaVersion, PragmaText, Decides, Asked, Split, IsPragma, Version3, Bound;
    var v := Version3(a, b, c);
    BoundAsks(pre, a, b, c, post);
    AskingPragma(num, gap1, gap2, pre + Bound(v + post), v, rest, target);
  }

  // ----- Pragmas that ask for nothing the code recognises -----

  ghost predicate StartsTriple(s: string) {
    exists a, b, c :: AllDigits(a) && AllDigits(b) && AllDigits(c) && Version3(a, b, c) <= s
  }

  lemma Version3From(s: string, a: nat, b: nat, c: nat)
    requires a + b + 2 + c <= |s| && s[a] == '.' && s[a + 1 + b] == '.'
    ensures s[..a + b + 2 + c] == Version3(s[..a], s[a + 1..][..b], s[a + b + 2..][..c])
  {
  }

  lemma DigitsAre(s: string, n: nat)
    requires 0 < n == DigitRun(s)
    ensures AllDigits(s[..n])
  {
    DigitRunMeans(s);
  }

  lemma TripleFound(s: string)
    ensures Triple(s).Some? ==> StartsTriple(s)
  {
    if Triple(s).Some? {
      var a := DigitRun(s);
      var b := DigitRun(s[a + 1..]);
      var c := DigitRun(s[a + b + 2..]);
      hide DigitRun, AllDigits, Version3;
      DigitsAre(s, a);
      DigitsAre(s[a + 1..], b);
      DigitsAre(s[a + b + 2..], c);
      Version3From(s, a, b, c);
      assert Version3(s[..a], s[a + 1..][..b], s[a + b + 2..][..c]) <= s;
    }
  }

  /** A lower bound with a version behind it. */
  ghost predicate HasBound(s: string) {
    exists p: nat :: p + 2 <= |s| && s[p] == '>' && s[p + 1] == '=' && StartsTriple(s[p + 2..])
  }

  lemma {:induction false} BoundFound(s: string)
    ensures FirstBound(s).Some? ==> HasBound(s)
  {
    if |s| >= 2 && FirstBound(s).Some? {
      if ">=" <= s && Triple(s[2..]).Some? {
        TripleFound(s[2..]);
        assert s[0] == '>' && s[0 + 1] == '=';
      } else {
        BoundFound(s[1..]);
        var p: nat :| p + 2 <= |s[1..]| && s[1..][p] == '>' && s[1..][p + 1] == '=' && StartsTriple(s[1..][p + 2..]);
        assert s[1..][p + 2..] == s[p + 3..];
        assert s[p + 1] == '>' && s[(p + 1) + 1] == '=' && StartsTriple(s[(p + 1) + 2..]);
      }
    }
  }

  lemma TripleGoesOn(s: string, t: string)
    requires StartsTriple(s)
    ensures StartsTriple(s + t)
  {
    hide AllDigits, Version3;
    var a, b, c :| AllDigits(a) && AllDigits(b) && AllDigits(c) && Version3(a, b, c) <= s;
    assert Version3(a, b, c) <= s + t;
  }

  lemma Inside(pre: string, core: string, post: string, i: nat)
    requires i <= |core|
    ensures (pre + core + post)[|pre| + i..] == core[i..] + post
    ensures i < |core| ==> (pre + core + post)[|pre| + i] == core[i]
  {
  }

  /** A bound inside a part is a bound inside the whole. */
  lemma BoundInPart(pre: string, core: string, post: string)
    requires HasBound(core)
    ensures HasBound(pre + core + post)
  {
    hide StartsTriple;
    var s := pre + core + post;
    var p: nat :| p + 2 <= |core| && core[p] == '>' && core[p + 1] == '=' && StartsTriple(core[p + 2..]);
    Inside(pre, core, post, p);
    Inside(pre, core, post, p + 1);
    Inside(pre, core, post, p + 2);
    TripleGoesOn(core[p + 2..], post);
    var q: nat := |pre| + p;
    assert q + 2 <= |s| && s[q] == '>' && s[q + 1] == '=' && StartsTriple(s[q + 2..]);
  }

  /** The first character that is not blank is a caret. */
  ghost predicate LeadsWithCaret(s: string) {
    exists p :: 0 <= p < |s| && s[p] == '^' && AllBlank(s[..p])
  }

  lemma PlainAsksNothing(body: string)
    requires !LeadsWithCaret(body) && !HasBound(body)
    ensures Asked(body) == None
  {
    var pre, most := LeftSplit(body);
    var core, post := RightSplit(most);
    hide TrimLeft, TrimRight, FirstBound, HasBound;
    assert body == pre + core + post;
    assert |core| > 0 ==> body[|pre|] == core[0] && body[..|pre|] == pre;
    BoundFound(core);
    if HasBound(core) { BoundInPart(pre, core, post); }
  }

  /** A pragma that has neither form is left alone. */
  lemma PlainPragma(num: string -> int, gap1: string, gap2: string, body: string, rest: string, target: string)
    requires IsPragma(gap1, gap2, body) && !LeadsWithCaret(body) && !HasBound(body)
    ensures var text := PragmaText(gap1, gap2, body);
            AdjustPragmaVersion(num, text + rest, target) == text + AdjustPragmaVersion(num, rest, target)
  {
    PlainAsksNothing(body);
    hide AdjustPragmaVersion, PragmaText, Asked, IsPragma;
    PragmaAdjusts(num, gap1, gap2, body, rest, target);
  }
}
