/**
 The fragment of Go's regular expressions that this repository uses: literals,
 ASCII character classes, alternation, concatenation and open-ended repetition.
 Matching is a relation, so nothing here depends on how an engine searches; the
 two choices Go's engine makes (leftmost start, greedy end) are the predicate
 `LeftmostGreedy`.
 */
module Regex {

  datatype Class = UpperDigit | Word | Digit | Space

  predicate In(c: char, k: Class) {
    match k
    case UpperDigit => 'A' <= c <= 'Z' || '0' <= c <= '9'
    case Word => 'A' <= c <= 'Z' || 'a' <= c <= 'z' || '0' <= c <= '9' || c == '_'
    case Digit => '0' <= c <= '9'
    case Space => c == '\t' || c == '\n' || c == 12 as char || c == '\r' || c == ' '
  }

  predicate AllIn(s: string, k: Class) {
    forall i :: 0 <= i < |s| ==> In(s[i], k)
  }

  datatype Regex =
    | Lit(text: string)
    | One(k: Class)
    | AtLeast(n: nat, k: Class)
    | Alt(choices: seq<Regex>)
    | Cat(first: Regex, second: Regex)

  // r matches the whole of s
  predicate Matches(r: Regex, s: string) {
    match r
    case Lit(text) => s == text
    case One(k) => |s| == 1 && In(s[0], k)
    case AtLeast(n, k) => |s| >= n && AllIn(s, k)
    case Alt(choices) => exists c :: c in choices && Matches(c, s)
    case Cat(r1, r2) => exists i :: 0 <= i <= |s| && Matches(r1, s[..i]) && Matches(r2, s[i..])
  }

  predicate MatchesAt(r: Regex, s: string, i: int, j: int) {
    0 <= i <= j <= |s| && Matches(r, s[i..j])
  }

  // The occurrence Go's engine reports when it searches s from position `from`.
  ghost predicate LeftmostGreedy(r: Regex, s: string, from: nat, i: int, j: int) {
    && from <= i
    && MatchesAt(r, s, i, j)
    && (forall p, q :: from <= p < i ==> !MatchesAt(r, s, p, q))
    && (forall q :: q > j ==> !MatchesAt(r, s, i, q))
  }

  // The classes, character by character: `[A-Z0-9]`, `\w`, `\d` and `\s`.
  lemma ClassesAre(c: char)
    ensures In(c, Space) <==> c in {' ', '\t', '\n', '\r', 12 as char}
    ensures In(c, Digit) <==> c in {'0', '1', '2', '3', '4', '5', '6', '7', '8', '9'}
    ensures In(c, UpperDigit) <==> In(c, Digit) || 65 <= c as int <= 90
    ensures In(c, Word) <==> In(c, UpperDigit) || 97 <= c as int <= 122 || c == '_'
  {
  }
}
