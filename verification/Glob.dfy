/**
 * The glob matcher of src/database.cpp. The source walks pattern and text once and, on a
 * mismatch, returns only to the last star. It decides exactly the matching relation that
 * the pattern denotes.
 */
module Glob {
  import opened Text

  /** `char` is signed on the supported platforms, so bytes from 128 up sort below zero. */
  function Rank(c: char): int {
    if c as int < 128 then c as int else c as int - 256
  }

  // ---------------------------------------------------------------
  // What a pattern means
  // ---------------------------------------------------------------

  datatype Range = Range(low: char, high: char)

  predicate InRange(c: char, r: Range) {
    if Rank(r.low) <= Rank(r.high) then Rank(r.low) <= Rank(c) <= Rank(r.high)
    else Rank(r.high) <= Rank(c) <= Rank(r.low)
  }

  /** The members of a character class, from `pos` up to its closing bracket, and where it ends. */
  datatype Members = Members(ranges: seq<Range>, end: nat)

  /** One class member at `pos`: a character or a range, and the position after it. */
  function MemberAt(p: string, pos: nat): (r: (Range, nat))
    requires pos < |p|
    ensures pos < r.1 <= |p|
  {
    var at := if p[pos] == '\\' && pos + 1 < |p| then pos + 1 else pos;
    if at + 2 < |p| && p[at + 1] == '-' && p[at + 2] != ']' then
      (Range(p[at], p[at + 2]), at + 3)
    else
      (Range(p[at], p[at]), at + 1)
  }

  function ClassMembers(p: string, pos: nat): (m: Members)
    requires pos <= |p|
    ensures pos <= m.end <= |p|
    decreases |p| - pos
  {
    if pos < |p| && p[pos] != ']' then
      var (range, next) := MemberAt(p, pos);
      var rest := ClassMembers(p, next);
      Members([range] + rest.ranges, rest.end)
    else
      Members([], if pos < |p| then pos + 1 else pos)
  }

  predicate Negated(p: string, pos: nat) {
    pos + 1 < |p| && p[pos + 1] == '^'
  }

  /** A token that stands for exactly one character: which ones, and the position after it. */
  datatype Token = AnyChar | OneOf(ranges: seq<Range>, negate: bool) | Literal(c: char)

  function TokenAt(p: string, pos: nat): (r: (Token, nat))
    requires pos < |p| && p[pos] != '*'
    ensures pos < r.1 <= |p|
  {
    if p[pos] == '?' then (AnyChar, pos + 1)
    else if p[pos] == '[' then
      var m := ClassMembers(p, if Negated(p, pos) then pos + 2 else pos + 1);
      (OneOf(m.ranges, Negated(p, pos)), m.end)
    else if p[pos] == '\\' && pos + 1 < |p| then (Literal(p[pos + 1]), pos + 2)
    else (Literal(p[pos]), pos + 1)
  }

  predicate AnyContains(ranges: seq<Range>, c: char)
    ensures AnyContains(ranges, c) <==> exists i :: 0 <= i < |ranges| && InRange(c, ranges[i])
  {
    ranges != [] && (InRange(c, ranges[0]) || AnyContains(ranges[1..], c))
  }

  predicate Accepts(t: Token, c: char) {
    match t
    case AnyChar => true
    case OneOf(ranges, negate) => AnyContains(ranges, c) != negate
    case Literal(l) => l == c
  }

  /** The text from `tp` on matches the pattern from `pp` on; a star stands for any run of characters. */
  ghost predicate Matches(p: string, pp: nat, t: string, tp: nat)
    requires pp <= |p| && tp <= |t|
    decreases |p| - pp, |t| - tp
  {
    if pp == |p| then tp == |t|
    else if p[pp] == '*' then Matches(p, pp + 1, t, tp) || (tp < |t| && Matches(p, pp, t, tp + 1))
    else
      && tp < |t|
      && Accepts(TokenAt(p, pp).0, t[tp])
      && Matches(p, TokenAt(p, pp).1, t, tp + 1)
  }

  /** Some suffix of the text, starting at `from` or later, matches the pattern from `star` on. */
  ghost predicate Later(p: string, star: nat, t: string, from: nat)
    requires star <= |p|
  {
    exists k :: from <= k <= |t| && Matches(p, star, t, k)
  }

  lemma LaterNow(p: string, star: nat, t: string, from: nat)
    requires star <= |p|
    ensures Later(p, star, t, from) <==> (from <= |t| && Matches(p, star, t, from)) || Later(p, star, t, from + 1)
  {
  }

  /** A star matches exactly when some suffix of the text matches what follows it. */
  lemma {:induction false} StarMeaning(p: string, pp: nat, t: string, tp: nat)
    requires pp < |p| && p[pp] == '*' && tp <= |t|
    ensures Matches(p, pp, t, tp) <==> Later(p, pp + 1, t, tp)
    decreases |t| - tp
  {
    LaterNow(p, pp + 1, t, tp);
    if tp < |t| {
      StarMeaning(p, pp, t, tp + 1);
    }
  }

  /** The keys that match a pattern. */
  ghost function MatchingSet(keys: set<string>, pattern: string): set<string> {
    set k | k in keys && Matches(pattern, 0, k, 0)
  }

  /** Looking at one more key. */
  lemma MatchingOneMore(live: set<string>, rest: set<string>, key: string, pattern: string)
    requires key in rest
    ensures MatchingSet(live - (rest - {key}), pattern) ==
            MatchingSet(live - rest, pattern) + (if key in live && Matches(pattern, 0, key, 0) then {key} else {})
  {
    hide Matches;
  }

  lemma MatchingNone(live: set<string>, rest: set<string>, pattern: string)
    requires live <= rest
    ensures MatchingSet(live - rest, pattern) == {}
  {
    hide Matches;
  }

  lemma MatchingAll(live: set<string>, pattern: string)
    ensures MatchingSet(live - {}, pattern) == MatchingSet(live, pattern)
  {
    assert live - {} == live;
  }

  // ---------------------------------------------------------------
  // Why returning to the last star is enough
  // ---------------------------------------------------------------

  /** From `a` to `b` the pattern consists of `n` one-character tokens. */
  ghost predicate Plain(p: string, a: nat, b: nat, n: nat)
    requires a <= |p| && b <= |p|
    decreases n
  {
    if n == 0 then a == b
    else a < |p| && p[a] != '*' && Plain(p, TokenAt(p, a).1, b, n - 1)
  }

  lemma {:induction false} PlainExtend(p: string, a: nat, b: nat, n: nat)
    requires a <= |p| && b < |p| && p[b] != '*'
    requires Plain(p, a, b, n)
    ensures Plain(p, a, TokenAt(p, b).1, n + 1)
    decreases n
  {
    hide TokenAt;
    if n > 0 {
      PlainExtend(p, TokenAt(p, a).1, b, n - 1);
    }
  }

  /** A match that starts before plain tokens passes through their end. */
  lemma {:induction false} PlainMatch(p: string, a: nat, b: nat, n: nat, t: string, k: nat)
    requires a <= |p| && b <= |p| && k <= |t|
    requires Plain(p, a, b, n) && Matches(p, a, t, k)
    ensures k + n <= |t| && Matches(p, b, t, k + n)
    decreases n
  {
    hide TokenAt, Accepts;
    if n > 0 {
      PlainMatch(p, TokenAt(p, a).1, b, n - 1, t, k + 1);
    }
  }

  /** A star can always absorb more, so a newer star subsumes every choice of the older one. */
  lemma NewStarSubsumes(p: string, star: nat, starText: nat, pp: nat, t: string, tp: nat)
    requires star <= |p| && pp < |p| && p[pp] == '*' && starText <= tp <= |t|
    requires Plain(p, star, pp, tp - starText)
    requires Later(p, star, t, starText + 1)
    ensures Matches(p, pp, t, tp)
  {
    var k :| starText + 1 <= k <= |t| && Matches(p, star, t, k);
    PlainMatch(p, star, pp, tp - starText, t, k);
    StarMeaning(p, pp, t, k + (tp - starText));
    StarMeaning(p, pp, t, tp);
  }

  /** When the text is used up, only stars can still match, and a later start cannot. */
  lemma {:induction false} StarsOnly(p: string, pp: nat, t: string)
    requires pp <= |p|
    ensures Matches(p, pp, t, |t|) <==> forall i :: pp <= i < |p| ==> p[i] == '*'
    decreases |p| - pp
  {
    if pp < |p| && p[pp] == '*' {
      StarsOnly(p, pp + 1, t);
    }
  }

  /** A later start of the last star overshoots: the plain tokens after it need the whole rest. */
  lemma NoLaterAtEnd(p: string, star: nat, starText: nat, pp: nat, t: string)
    requires star <= |p| && pp <= |p| && starText <= |t|
    requires Plain(p, star, pp, |t| - starText)
    ensures !Later(p, star, t, starText + 1)
  {
    if Later(p, star, t, starText + 1) {
      var k :| starText + 1 <= k <= |t| && Matches(p, star, t, k);
      PlainMatch(p, star, pp, |t| - starText, t, k);
    }
  }

  // ---------------------------------------------------------------
  // The source's loops
  // ---------------------------------------------------------------

  lemma NoMembers(c: char)
    ensures !AnyContains([], c)
  {
  }

  lemma MemberTurn(p: string, pos: nat, c: char)
    requires pos < |p| && p[pos] != ']'
    ensures ClassMembers(p, pos).end == ClassMembers(p, MemberAt(p, pos).1).end
    ensures AnyContains(ClassMembers(p, pos).ranges, c) <==>
            InRange(c, MemberAt(p, pos).0) || AnyContains(ClassMembers(p, MemberAt(p, pos).1).ranges, c)
  {
    var rest := ClassMembers(p, MemberAt(p, pos).1);
    assert ([MemberAt(p, pos).0] + rest.ranges)[1..] == rest.ranges;
  }

  /** One turn of the class loop: a character, possibly escaped, and the end of its range. */
  method ReadMember(pattern: string, start: nat) returns (low: char, high: char, next: nat)
    requires start < |pattern|
    ensures MemberAt(pattern, start) == (Range(low, high), next)
  {
    var position := start;
    low := pattern[position];
    if low == '\\' && position + 1 < |pattern| {
      position := position + 1;
      low := pattern[position];
    }
    high := low;
    if position + 2 < |pattern| && pattern[position + 1] == '-' && pattern[position + 2] != ']' {
      high := pattern[position + 2];
      position := position + 2;
    }
    next := position + 1;
  }

  /** `matchCharacterClass`: scans to the end of the class whatever the character is. */
  method MatchCharacterClass(pattern: string, start: nat, character: char) returns (matches: bool, position: nat)
    requires start < |pattern| && pattern[start] == '['
    ensures position == TokenAt(pattern, start).1
    ensures matches == Accepts(TokenAt(pattern, start).0, character)
  {
    hide AnyContains, MemberAt;
    position := start + 1;
    var negate := false;
    if position < |pattern| && pattern[position] == '^' {
      negate := true;
      position := position + 1;
    }
    ghost var first := position;
    ghost var all := ClassMembers(pattern, first);
    var matched := false;
    while position < |pattern| && pattern[position] != ']'
      invariant first <= position <= |pattern|
      invariant ClassMembers(pattern, position).end == all.end
      invariant AnyContains(all.ranges, character) <==>
        matched || AnyContains(ClassMembers(pattern, position).ranges, character)
      decreases |pattern| - position
    {
      var low, high, next := ReadMember(pattern, position);
      MemberTurn(pattern, position, character);
      if Rank(low) > Rank(high) {
        low, high := high, low;
      }
      if Rank(low) <= Rank(character) <= Rank(high) {
        matched := true;
      }
      position := next;
    }
    NoMembers(character);
    if position < |pattern| {
      position := position + 1;
    }
    matches := matched != negate;
  }

  /** `globMatch` decides exactly the denotation, on every pattern and every text. */
  method GlobMatch(pattern: string, text: string) returns (result: bool)
    ensures result <==> Matches(pattern, 0, text, 0)
  {
    hide TokenAt, Accepts;
    var patternPos := 0;
    var textPos := 0;
    var starPattern: Option<nat> := None;
    var starText := 0;
    while textPos < |text|
      invariant 0 <= patternPos <= |pattern| && 0 <= starText <= textPos <= |text|
      invariant starPattern.Some? ==>
        starPattern.value <= |pattern| && Plain(pattern, starPattern.value, patternPos, textPos - starText)
      invariant Matches(pattern, 0, text, 0) <==>
        || Matches(pattern, patternPos, text, textPos)
        || (starPattern.Some? && Later(pattern, starPattern.value, text, starText + 1))
      decreases |text| - starText, |text| - textPos, |pattern| - patternPos
    {
      if patternPos < |pattern| {
        var token := pattern[patternPos];
        if token == '*' {
          if starPattern.Some? && Later(pattern, starPattern.value, text, starText + 1) {
            NewStarSubsumes(pattern, starPattern.value, starText, patternPos, text, textPos);
          }
          StarMeaning(pattern, patternPos, text, textPos);
          LaterNow(pattern, patternPos + 1, text, textPos);
          patternPos := patternPos + 1;
          starPattern := Some(patternPos);
          starText := textPos;
          continue;
        }
        var next := patternPos;
        var accepted := false;
        accepted, next := MatchToken(pattern, patternPos, text[textPos]);
        if accepted {
          if starPattern.Some? {
            PlainExtend(pattern, starPattern.value, patternPos, textPos - starText);
          }
          patternPos := next;
          textPos := textPos + 1;
          continue;
        }
      }
      if starPattern.Some? {
        LaterNow(pattern, starPattern.value, text, starText + 1);
        starText := starText + 1;
        patternPos := starPattern.value;
        textPos := starText;
        continue;
      }
      return false;
    }
    if starPattern.Some? {
      NoLaterAtEnd(pattern, starPattern.value, starText, patternPos, text);
    }
    StarsOnly(pattern, patternPos, text);
    ghost var rest := patternPos;
    while patternPos < |pattern| && pattern[patternPos] == '*'
      invariant rest <= patternPos <= |pattern|
      invariant forall i :: rest <= i < patternPos ==> pattern[i] == '*'
    {
      patternPos := patternPos + 1;
    }
    return patternPos == |pattern|;
  }

  /** The three one-character tokens of the main loop. */
  method MatchToken(pattern: string, patternPos: nat, character: char) returns (accepted: bool, next: nat)
    requires patternPos < |pattern| && pattern[patternPos] != '*'
    ensures accepted <==> Accepts(TokenAt(pattern, patternPos).0, character)
    ensures accepted ==> next == TokenAt(pattern, patternPos).1
  {
    var token := pattern[patternPos];
    if token == '?' {
      return true, patternPos + 1;
    }
    if token == '[' {
      accepted, next := MatchCharacterClass(pattern, patternPos, character);
    } else {
      next := patternPos;
      if token == '\\' && next + 1 < |pattern| {
        token := pattern[next + 1];
        next := next + 1;
      }
      accepted := token == character;
      next := next + 1;
    }
  }
}
