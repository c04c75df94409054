/** The four citation regexes of `parseCitations`, each modelled as the scanner
    that `String.prototype.matchAll` runs for a global regex: try to match at a
    position; after a match resume at its end, after a failure at the next
    position. */
module Patterns {
  import opened Wrappers

  /** The patterns, in the order in which they are applied. */
  datatype Pattern =
    | KepDash   // /KEP-?(\d+)/gi
    | KepHash   // /KEP #(\d+)/gi
    | KepSpace  // /KEP (\d+)(?!\S)/gi
    | IssueUrl  // /https:\/\/github\.com\/kubernetes\/enhancements\/issues\/(\d+)/gi

  const KepRegexes: seq<Pattern> := [KepDash, KepHash, KepSpace, IssueUrl]

  /** One match: the text of capture group 1 and the index just past the match. */
  datatype Match = Match(capture: string, end: nat)

  /** `\d`: the ASCII digits only. */
  predicate IsDigit(c: char) {
    '0' <= c <= '9'
  }

  /** `\s`: the ECMAScript WhiteSpace and LineTerminator code points. */
  predicate IsSpace(c: char) {
    || c == '\t' || c == '\n' || c == '\U{000B}' || c == '\U{000C}' || c == '\r' || c == ' '
    || c == '\U{00A0}' || c == '\U{1680}' || ('\U{2000}' <= c <= '\U{200A}')
    || c == '\U{2028}' || c == '\U{2029}' || c == '\U{202F}' || c == '\U{205F}'
    || c == '\U{3000}' || c == '\U{FEFF}'
  }

  /** The canonical form a character takes under the `i` flag, as far as the
      ASCII literals of these patterns are concerned: lower-case ASCII letters
      become upper case, and no other character becomes an ASCII letter (a
      non-ASCII character whose upper case is ASCII keeps its own form). */
  function Fold(c: char): char {
    if 'a' <= c <= 'z' then (c as int - 32) as char else c
  }

  /** A non-empty string of ASCII digits, the shape of every capture. */
  ghost predicate IsNumeral(c: string) {
    |c| > 0 && forall j :: 0 <= j < |c| ==> IsDigit(c[j])
  }

  /** The literal text each pattern demands before its digit group. */
  function Literal(p: Pattern): string {
    match p
    case KepDash => "KEP"
    case KepHash => "KEP #"
    case KepSpace => "KEP "
    case IssueUrl => "https://github.com/kubernetes/enhancements/issues/"
  }

  /** The literal `lit` occurs at index `i` of `s`, compared case-insensitively. */
  predicate LiteralAt(s: string, i: nat, lit: string)
    ensures LiteralAt(s, i, lit) ==> i + |lit| <= |s|
    decreases |lit|
  {
    if lit == [] then i <= |s|
    else i < |s| && Fold(s[i]) == Fold(lit[0]) && LiteralAt(s, i + 1, lit[1..])
  }

  /** `\d+`, greedy: the end of the run of digits that starts at `k`. */
  function DigitRunEnd(s: string, k: nat): (e: nat)
    requires k <= |s|
    ensures k <= e <= |s|
    ensures forall j :: k <= j < e ==> IsDigit(s[j])
    ensures e == |s| || !IsDigit(s[e])
    decreases |s| - k
  {
    if k < |s| && IsDigit(s[k]) then DigitRunEnd(s, k + 1) else k
  }

  /** The index at which the digit group starts, once the literal has matched
      at `i`. For `KEP-?` the engine first tries the `-`; when no digit follows
      it, it backtracks to the empty alternative, which needs a digit where the
      `-` is and so fails as well. */
  function DigitsStart(p: Pattern, s: string, i: nat): nat
    requires LiteralAt(s, i, Literal(p))
  {
    var k := i + |Literal(p)|;
    if p == KepDash && k + 1 < |s| && s[k] == '-' && IsDigit(s[k + 1]) then k + 1 else k
  }

  /** A well-formed capture `c` that ends at index `e` of `s`: a maximal run of
      digits, and for the third pattern one followed by whitespace or the end
      of the text. */
  ghost predicate CaptureAt(p: Pattern, s: string, c: string, e: nat) {
    && |c| <= e <= |s|
    && c == s[e - |c|..e]
    && IsNumeral(c)
    && (e == |s| || !IsDigit(s[e]))
    && (p == KepSpace ==> e == |s| || IsSpace(s[e]))
  }

  /** The match the backtracking engine finds when it tries pattern `p` at
      index `i`, if any. For `(\d+)(?!\S)` the greedy run is tried first; every
      shorter run is followed by a digit, which is `\S`, so the maximal run is
      the only candidate. */
  function MatchAt(p: Pattern, s: string, i: nat): (r: Option<Match>)
    ensures r.Some? ==> LiteralAt(s, i, Literal(p)) && r.value.end - |r.value.capture| == DigitsStart(p, s, i)
    ensures r.Some? ==> i < r.value.end && CaptureAt(p, s, r.value.capture, r.value.end)
  {
    if !LiteralAt(s, i, Literal(p)) then None
    else
      var start := DigitsStart(p, s, i);
      if start == |s| || !IsDigit(s[start]) then None
      else
        var e := DigitRunEnd(s, start);
        if p == KepSpace && e < |s| && !IsSpace(s[e]) then None
        else Some(Match(s[start..e], e))
  }

  /** Every occurrence of the literal followed by a maximal digit run (and,
      for the third pattern, by whitespace or the end) is a match at that
      index, with that run as its capture. */
  lemma MatchAtComplete(p: Pattern, s: string, i: nat, a: nat, e: nat)
    requires LiteralAt(s, i, Literal(p))
    requires a < e <= |s|
    requires a == i + |Literal(p)| || (p == KepDash && a == i + 4 && s[i + 3] == '-')
    requires forall j :: a <= j < e ==> IsDigit(s[j])
    requires e == |s| || !IsDigit(s[e])
    requires p == KepSpace ==> e == |s| || IsSpace(s[e])
    ensures MatchAt(p, s, i) == Some(Match(s[a..e], e))
  {
    DigitsStartAt(p, s, i, a);
    DigitRunEndAt(s, a, e);
  }

  /** The digit group starts at `a` when a digit is there. */
  lemma DigitsStartAt(p: Pattern, s: string, i: nat, a: nat)
    requires LiteralAt(s, i, Literal(p))
    requires a < |s| && IsDigit(s[a])
    requires a == i + |Literal(p)| || (p == KepDash && a == i + 4 && s[i + 3] == '-')
    ensures DigitsStart(p, s, i) == a
  {
  }

  /** The greedy run from `a` ends at the first non-digit. */
  lemma {:induction false} DigitRunEndAt(s: string, a: nat, e: nat)
    requires a <= e <= |s|
    requires forall j :: a <= j < e ==> IsDigit(s[j])
    requires e == |s| || !IsDigit(s[e])
    ensures DigitRunEnd(s, a) == e
    decreases e - a
  {
    if a < e {
      DigitRunEndAt(s, a + 1, e);
    }
  }

  /** The captures of every match, in text order, scanning from `i`. */
  function CapturesFrom(p: Pattern, s: string, i: nat): seq<string>
    requires i <= |s|
    decreases |s| - i
  {
    if i == |s| then []
    else
      match MatchAt(p, s, i)
      case Some(m) => [m.capture] + CapturesFrom(p, s, m.end)
      case None => CapturesFrom(p, s, i + 1)
  }

  lemma CapturesFromMatch(p: Pattern, s: string, i: nat, m: Match)
    requires i < |s| && MatchAt(p, s, i) == Some(m)
    ensures CapturesFrom(p, s, i) == [m.capture] + CapturesFrom(p, s, m.end)
  {
  }

  lemma CapturesFromNoMatch(p: Pattern, s: string, i: nat)
    requires i < |s| && MatchAt(p, s, i) == None
    ensures CapturesFrom(p, s, i) == CapturesFrom(p, s, i + 1)
  {
  }

  /** The captures `markdown.matchAll(regex)` yields, in text order. */
  function Captures(p: Pattern, s: string): seq<string> {
    CapturesFrom(p, s, 0)
  }

  /** Every capture is a maximal digit run of the text; a capture of the
      third pattern is followed by whitespace or the end of the text. */
  lemma {:induction false} CapturesFromWellFormed(p: Pattern, s: string, i: nat)
    requires i <= |s|
    ensures forall c :: c in CapturesFrom(p, s, i) ==> exists e :: CaptureAt(p, s, c, e)
    decreases |s| - i
  {
    if i < |s| {
      var r := MatchAt(p, s, i);
      if r.Some? {
        var m := r.value;
        CapturesFromWellFormed(p, s, m.end);
        CapturesFromMatch(p, s, i, m);
        assert CaptureAt(p, s, m.capture, m.end);
      } else {
        CapturesFromWellFormed(p, s, i + 1);
        CapturesFromNoMatch(p, s, i);
      }
    }
  }

  /** Every capture is a non-empty string of ASCII digits. */
  lemma CapturesAreNumerals(p: Pattern, s: string)
    ensures forall c :: c in Captures(p, s) ==> IsNumeral(c)
  {
    CapturesFromWellFormed(p, s, 0);
  }

  /** A matching literal agrees with the text, character by character, up
      to case. */
  lemma {:induction false} LiteralAtChars(s: string, i: nat, lit: string)
    ensures LiteralAt(s, i, lit) ==> forall k :: 0 <= k < |lit| ==> Fold(s[i + k]) == Fold(lit[k])
    decreases |lit|
  {
    if lit != [] && LiteralAt(s, i, lit) {
      LiteralAtChars(s, i + 1, lit[1..]);
      forall k | 0 <= k < |lit| ensures Fold(s[i + k]) == Fold(lit[k]) {
        if k > 0 {
          assert lit[1..][k - 1] == lit[k];
        }
      }
    }
  }

  /** A scan over positions where nothing matches captures nothing. */
  lemma {:induction false} CapturesFromNone(p: Pattern, s: string, i: nat)
    requires i <= |s|
    requires forall j :: i <= j < |s| ==> MatchAt(p, s, j) == None
    ensures CapturesFrom(p, s, i) == []
    decreases |s| - i
  {
    if i < |s| {
      CapturesFromNone(p, s, i + 1);
      CapturesFromNoMatch(p, s, i);
    }
  }

  /** A text that lacks a character of a pattern's literal, one that is no
      ASCII letter and so has a single case, yields no capture for that
      pattern. */
  lemma MissingLiteralCharNoCaptures(p: Pattern, s: string, k: nat)
    requires k < |Literal(p)|
    requires !('a' <= Literal(p)[k] <= 'z') && !('A' <= Literal(p)[k] <= 'Z')
    requires Literal(p)[k] !in s
    ensures Captures(p, s) == []
  {
    forall j | 0 <= j < |s| ensures MatchAt(p, s, j) == None {
      LiteralAtChars(s, j, Literal(p));
      if j + k < |s| {
        assert s[j + k] in s;
      }
    }
    CapturesFromNone(p, s, 0);
  }

  /** A text shorter than a pattern's literal yields no capture for it. */
  lemma ShortTextNoCaptures(p: Pattern, s: string)
    requires |s| < |Literal(p)|
    ensures Captures(p, s) == []
  {
    forall j | 0 <= j < |s| ensures MatchAt(p, s, j) == None {
    }
    CapturesFromNone(p, s, 0);
  }
}
