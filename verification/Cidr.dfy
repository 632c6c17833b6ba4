/** containsCIDR: a substring search over the lines of `ip -o addr show`, and why it is
    equality of tokens. */
module Cidr {

  /** unicode.IsSpace. */
  predicate IsSpace(c: char) {
    || '\U{9}' <= c <= '\U{d}' || c == ' ' || c == '\U{85}' || c == '\U{a0}' || c == '\U{1680}'
    || '\U{2000}' <= c <= '\U{200a}' || c == '\U{2028}' || c == '\U{2029}' || c == '\U{202f}'
    || c == '\U{205f}' || c == '\U{3000}'
  }

  /** The code points with the White_Space property (PropList of the Unicode Character Database). */
  const WHITE_SPACE: seq<int> := [
    0x9, 0xa, 0xb, 0xc, 0xd, 0x20, 0x85, 0xa0, 0x1680, 0x2000, 0x2001, 0x2002, 0x2003, 0x2004, 0x2005, 0x2006, 0x2007,
    0x2008, 0x2009, 0x200a, 0x2028, 0x2029, 0x202f, 0x205f, 0x3000]

  lemma SpacesExactly(c: char)
    ensures IsSpace(c) <==> c as int in WHITE_SPACE
  {
  }

  // ---- package strings ----

  predicate MatchesAt(s: string, i: nat, sub: string) {
    i + |sub| <= |s| && s[i..i + |sub|] == sub
  }

  predicate Contains(s: string, sub: string) {
    exists i: nat :: i <= |s| && MatchesAt(s, i, sub)
  }

  predicate HasSuffix(s: string, suffix: string) {
    |suffix| <= |s| && s[|s| - |suffix|..] == suffix
  }

  function TrimRight(s: string): (r: string)
    ensures r <= s
    ensures r == [] || !IsSpace(r[|r| - 1])
    ensures forall i :: |r| <= i < |s| ==> IsSpace(s[i])
  {
    if s != [] && IsSpace(s[|s| - 1]) then TrimRight(s[..|s| - 1]) else s
  }

  function TrimLeft(s: string): (r: string)
    ensures |r| <= |s| && s[|s| - |r|..] == r
    ensures r == [] || !IsSpace(r[0])
    ensures forall i :: 0 <= i < |s| - |r| ==> IsSpace(s[i])
  {
    if s != [] && IsSpace(s[0]) then TrimLeft(s[1..]) else s
  }

  function TrimSpace(s: string): string { TrimRight(TrimLeft(s)) }

  /** strings.Split(s, "\n"): never empty, no line contains a newline, joining gives s back. */
  function Lines(s: string): (ls: seq<string>)
    ensures ls != []
    ensures forall i :: 0 <= i < |ls| ==> '\n' !in ls[i]
    ensures Joined(ls) == s
  {
    if '\n' !in s then assert Joined([s]) == s; [s]
    else
      var i := FirstNewline(s);
      var rest := Lines(s[i + 1..]);
      assert ([s[..i]] + rest)[1..] == rest;
      assert s == s[..i] + ['\n'] + s[i + 1..];
      [s[..i]] + rest
  }

  function FirstNewline(s: string): (i: nat)
    requires '\n' in s
    ensures i < |s| && s[i] == '\n' && '\n' !in s[..i]
  {
    if s[0] == '\n' then 0 else
      assert s == [s[0]] + s[1..];
      var j := FirstNewline(s[1..]);
      assert s[..j + 1] == [s[0]] + s[1..][..j];
      j + 1
  }

  function Joined(ls: seq<string>): string {
    if ls == [] then [] else if |ls| == 1 then ls[0] else ls[0] + ['\n'] + Joined(ls[1..])
  }

  // ---- containsCIDR ----

  predicate LineMatches(line: string, cidr: string) {
    Contains(line, " " + cidr + " ") || HasSuffix(TrimSpace(line), " " + cidr)
  }

  method ContainsCIDR(showOutput: string, cidr: string) returns (found: bool)
    ensures found <==> exists line :: line in Lines(showOutput) && LineMatches(line, cidr)
  {
    hide LineMatches, Lines;
    var lines := Lines(showOutput);
    for i := 0 to |lines|
      invariant forall j :: 0 <= j < i ==> !LineMatches(lines[j], cidr)
    {
      if LineMatches(lines[i], cidr) {
        return true;
      }
    }
    return false;
  }

  // ---- tokens ----

  /** The leading run of characters other than ' '. */
  function Word(s: string): (w: string)
    ensures w <= s && ' ' !in w
    ensures |w| == |s| || s[|w|] == ' '
  {
    if s == [] || s[0] == ' ' then []
    else
      var w := Word(s[1..]);
      assert [s[0]] + w <= s;
      [s[0]] + w
  }

  /** The space-delimited tokens of a line, in order. */
  function Tokens(s: string): seq<string>
    decreases |s|
  {
    if s == [] then []
    else if s[0] == ' ' then Tokens(s[1..])
    else [Word(s)] + Tokens(s[|Word(s)|..])
  }

  function LaterTokens(line: string): seq<string> {
    if Tokens(line) == [] then [] else Tokens(line)[1..]
  }

  /** `c` stands at position `i`, delimited by spaces or the ends of the string. */
  predicate TokenAt(s: string, i: nat, c: string) {
    && MatchesAt(s, i, c)
    && (i == 0 || s[i - 1] == ' ')
    && (i + |c| == |s| || s[i + |c|] == ' ')
  }

  predicate Solid(c: string) {
    c != [] && forall i :: 0 <= i < |c| ==> !IsSpace(c[i])
  }

  lemma MatchesShift(s: string, k: nat, i: nat, c: string)
    requires k <= |s|
    ensures MatchesAt(s[k..], i, c) <==> MatchesAt(s, k + i, c)
  {
    if k + i + |c| <= |s| {
      assert s[k..][i..i + |c|] == s[k + i..k + i + |c|];
    }
  }

  /** A token occurrence behind position `k`, where s[k] is a space, seen from s[k..]. */
  lemma TokenShift(s: string, k: nat, i: nat, c: string)
    requires k < |s| && s[k] == ' ' && Solid(c)
    ensures TokenAt(s[k..], i, c) <==> i > 0 && TokenAt(s, k + i, c)
  {
    MatchesShift(s, k, i, c);
    if i == 0 && MatchesAt(s, k, c) {
      assert s[k..k + |c|][0] == c[0];
    }
  }

  lemma NoTokenInside(s: string, w: string, i: nat)
    requires w <= s && ' ' !in w && 0 < i <= |w|
    ensures s[i - 1] != ' '
  {
    assert w[i - 1] == s[i - 1];
  }

  /** A token at the very start is the leading word. */
  lemma TokenAtStart(s: string, c: string)
    requires s != [] && s[0] != ' ' && Solid(c)
    ensures TokenAt(s, 0, c) <==> c == Word(s)
  {
    var w := Word(s);
    if TokenAt(s, 0, c) {
      assert s[..|c|] == c;
      assert forall i :: 0 <= i < |c| ==> s[i] == s[..|c|][i] != ' ';
      assert forall i :: 0 <= i < |w| ==> s[i] == w[i] != ' ';
    }
  }

  lemma {:induction false} TokensAreOccurrences(s: string, c: string)
    requires Solid(c)
    ensures c in Tokens(s) <==> exists i: nat :: TokenAt(s, i, c)
    decreases |s|
  {
    if s == [] {
    } else if s[0] == ' ' {
      TokensAreOccurrences(s[1..], c);
      SpaceInFront(s, c);
    } else {
      var w := Word(s);
      TokensAreOccurrences(s[|w|..], c);
      WordInFront(s, c);
      TokenAtStart(s, c);
    }
  }

  lemma SpaceInFront(s: string, c: string)
    requires s != [] && s[0] == ' ' && Solid(c)
    ensures (exists i: nat :: TokenAt(s, i, c)) <==> exists i: nat :: TokenAt(s[1..], i, c)
  {
    if i: nat :| TokenAt(s, i, c) {
      TokenShift(s, 0, i, c);
      assert s[0..] == s;
      MatchesShift(s, 1, i - 1, c);
      assert TokenAt(s[1..], i - 1, c);
    }
    if i: nat :| TokenAt(s[1..], i, c) {
      MatchesShift(s, 1, i, c);
      assert TokenAt(s, i + 1, c);
    }
  }

  /** Behind the leading word the occurrences are those of the rest of the line. */
  lemma WordInFront(s: string, c: string)
    requires s != [] && s[0] != ' ' && Solid(c)
    ensures (exists i: nat :: i > 0 && TokenAt(s, i, c)) <==> exists i: nat :: TokenAt(s[|Word(s)|..], i, c)
  {
    hide TokenAt, Word, Solid;
    var k := |Word(s)|;
    if i: nat :| i > 0 && TokenAt(s, i, c) {
      OccurrenceBehindWord(s, i, c);
      TokenShift(s, k, i - k, c);
      assert TokenAt(s[k..], i - k, c);
    }
    if i: nat :| TokenAt(s[k..], i, c) {
      OccurrenceNeedsRoom(s[k..], i, c);
      TokenShift(s, k, i, c);
      assert k + i > 0 && TokenAt(s, k + i, c);
    }
  }

  lemma OccurrenceBehindWord(s: string, i: nat, c: string)
    requires i > 0 && TokenAt(s, i, c) && Solid(c)
    ensures |Word(s)| < i && |Word(s)| < |s|
  {
    if i <= |Word(s)| { NoTokenInside(s, Word(s), i); }
  }

  lemma OccurrenceNeedsRoom(s: string, i: nat, c: string)
    requires TokenAt(s, i, c) && Solid(c)
    ensures s != []
  {
  }

  /** A line as iproute2 prints it: it starts with a non-space character and separates with spaces. */
  predicate WellFormedLine(line: string) {
    && (line != [] ==> line[0] != ' ')
    && forall i :: 0 <= i < |line| ==> IsSpace(line[i]) ==> line[i] == ' '
  }

  lemma PaddedMatch(s: string, j: nat, c: string)
    requires MatchesAt(s, j, " " + c + " ")
    ensures s[j] == ' ' && MatchesAt(s, j + 1, c) && s[j + 1 + |c|] == ' '
  {
    var padded := " " + c + " ";
    var m := s[j..j + |padded|];
    assert s[j] == m[0] == ' ' && s[j + 1 + |c|] == m[1 + |c|] == ' ';
    forall k | 0 <= k < |c| ensures s[j + 1..j + 1 + |c|][k] == c[k] {
      assert s[j + 1 + k] == m[1 + k] == padded[1 + k] == c[k];
    }
  }

  /** Trimming a line that starts with a non-space only drops trailing spaces. */
  lemma TrimDropsTail(line: string)
    requires WellFormedLine(line)
    ensures TrimSpace(line) <= line
    ensures |TrimSpace(line)| == |line| || line[|TrimSpace(line)|] == ' '
  {
    hide IsSpace;
    if line != [] { NonSpaceStart(line); }
    assert TrimLeft(line) == line;
  }

  lemma NonSpaceStart(line: string)
    requires WellFormedLine(line) && line != []
    ensures !IsSpace(line[0])
  {
    hide IsSpace;
  }

  lemma PaddedSuffix(t: string, c: string)
    requires HasSuffix(t, " " + c)
    ensures |t| > |c| && t[|t| - |c| - 1] == ' ' && t[|t| - |c|..] == c
  {
    var j := |t| - |c| - 1;
    assert t[j] == t[j..][0] == (" " + c)[0];
    assert t[j..][1..] == t[j + 1..] && (" " + c)[1..] == c;
  }

  lemma TrimmedSuffix(line: string, c: string) returns (i: nat)
    requires WellFormedLine(line) && Solid(c) && HasSuffix(TrimSpace(line), " " + c)
    ensures i > 0 && TokenAt(line, i, c)
  {
    hide IsSpace, WellFormedLine, Solid, HasSuffix, TrimSpace;
    var t := TrimSpace(line);
    TrimDropsTail(line);
    PaddedSuffix(t, c);
    i := |t| - |c|;
    assert line[i..i + |c|] == t[i..];
  }

  lemma SearchFindsOccurrence(line: string, c: string) returns (i: nat)
    requires WellFormedLine(line) && Solid(c) && LineMatches(line, c)
    ensures i > 0 && TokenAt(line, i, c)
  {
    hide MatchesAt, HasSuffix, TrimSpace, WellFormedLine, Solid;
    if Contains(line, " " + c + " ") {
      var j: nat :| j <= |line| && MatchesAt(line, j, " " + c + " ");
      PaddedMatch(line, j, c);
      i := j + 1;
    } else {
      i := TrimmedSuffix(line, c);
    }
  }

  lemma OccurrenceIsFound(line: string, i: nat, c: string)
    requires WellFormedLine(line) && Solid(c) && i > 0 && TokenAt(line, i, c)
    ensures LineMatches(line, c)
  {
    if i + |c| < |line| {
      assert line[i - 1..i + |c| + 1] == " " + c + " ";
      assert MatchesAt(line, i - 1, " " + c + " ");
    } else {
      assert line[|line| - 1] == c[|c| - 1];
      assert TrimSpace(line) == line;
      assert line[i - 1..] == " " + c;
    }
  }

  /** containsCIDR is token equality: on a well-formed line it finds exactly the addresses that are
      a whole token after the first, never part of a longer one. */
  lemma TokenEquality(line: string, c: string)
    requires WellFormedLine(line) && Solid(c)
    ensures LineMatches(line, c) <==> c in LaterTokens(line)
  {
    hide LineMatches, TokenAt, Solid, WellFormedLine;
    if LineMatches(line, c) {
      var i := SearchFindsOccurrence(line, c);
      OccurrenceNeedsRoom(line, i, c);
    }
    if line != [] {
      StartsWithWord(line);
      WordInFront(line, c);
      TokensAreOccurrences(line[|Word(line)|..], c);
      assert LaterTokens(line) == Tokens(line[|Word(line)|..]);
      if i: nat :| i > 0 && TokenAt(line, i, c) {
        OccurrenceIsFound(line, i, c);
      }
    }
  }

  /** The same for the whole multi-line output. */
  lemma OutputTokenEquality(out: string, c: string)
    requires Solid(c) && forall line :: line in Lines(out) ==> WellFormedLine(line)
    ensures (exists line :: line in Lines(out) && LineMatches(line, c))
        <==> exists line :: line in Lines(out) && c in LaterTokens(line)
  {
    hide LineMatches, LaterTokens, WellFormedLine, Lines, Solid;
    forall line | line in Lines(out)
      ensures LineMatches(line, c) <==> c in LaterTokens(line)
    {
      TokenEquality(line, c);
    }
  }

  lemma StartsWithWord(line: string)
    requires WellFormedLine(line) && line != []
    ensures line[0] != ' '
  {
  }
}
