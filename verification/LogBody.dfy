/**
 Logged bodies (logging/http.go, ReadTruncatedBody): read lines until the text
 reaches a limit, mark the cut, mask the result.
 */
module LogBody {
  import opened Redaction
  import opened Strings

  const TRUNCATED := "[truncated...]"

  datatype ReadResult = Line(text: string) | Eof | Fault

  datatype Body = Logged(text: string) | ReadError

  // The index of the first line feed, or the length.
  function LineFeed(s: string): nat {
    IndexFrom(s, '\n', 0)
  }

  // The first line without its terminator: LF, or CR LF.
  function FirstLine(s: string): string {
    var n := LineFeed(s);
    if n < |s| && n > 0 && s[n - 1] == '\r' then s[..n - 1] else s[..n]
  }

  function AfterFirst(s: string): (r: string)
    ensures |r| <= |s| && (s != "" ==> |r| < |s|)
  {
    var n := LineFeed(s);
    if n < |s| then s[n + 1..] else ""
  }

  /** What the text/proto reader has left to deliver, and how its input ends. */
  class TextReader {
    var rest: string
    const faulty: bool

    constructor (text: string, faulty: bool)
      ensures rest == text && this.faulty == faulty
    {
      rest := text;
      this.faulty := faulty;
    }

    method ReadLine() returns (r: ReadResult)
      modifies this
      ensures old(rest) == "" ==> rest == "" && r == if faulty then Fault else Eof
      ensures old(rest) != "" ==> r == Line(FirstLine(old(rest))) && rest == AfterFirst(old(rest))
      ensures old(rest) != "" ==> |rest| < |old(rest)|
    {
      if rest == "" {
        return if faulty then Fault else Eof;
      }
      r := Line(FirstLine(rest));
      rest := AfterFirst(rest);
    }
  }

  function Lines(s: string): seq<string>
    decreases |s|
  {
    if s == "" then [] else [FirstLine(s)] + Lines(AfterFirst(s))
  }

  // Every line followed by one line feed.
  function Joined(lines: seq<string>): string {
    if lines == [] then "" else lines[0] + "\n" + Joined(lines[1..])
  }

  function Normalised(s: string): string {
    Joined(Lines(s))
  }

  // How many of the lines are read, when k have been and the limit was not reached.
  function CutFrom(lines: seq<string>, k: nat, limit: int): (r: nat)
    requires k <= |lines|
    ensures k <= r <= |lines|
    decreases |lines| - k
  {
    if k == |lines| then k
    else if |Joined(lines[..k + 1])| >= limit then k + 1
    else CutFrom(lines, k + 1, limit)
  }

  predicate Reached(lines: seq<string>, k: nat, limit: int)
    requires k <= |lines|
  {
    k > 0 && |Joined(lines[..k])| >= limit
  }

  function CutText(lines: seq<string>, limit: int): string {
    var k := CutFrom(lines, 0, limit);
    Joined(lines[..k]) + if Reached(lines, k, limit) then TRUNCATED else ""
  }

  // The text handed to the masker.
  function TruncatedText(s: string, limit: int): string {
    CutText(Lines(s), limit)
  }

  ghost function TruncatedBody(s: string, faulty: bool, limit: int): Body {
    var lines := Lines(s);
    if faulty && !Reached(lines, CutFrom(lines, 0, limit), limit) then ReadError
    else Logged(Masked(TruncatedText(s, limit)))
  }

  // The builder at the end of the read loop, from a builder and the unread text;
  // nothing when a read error comes before the limit.
  function ReadFrom(builder: string, rest: string, faulty: bool, limit: int): Body
    decreases |rest|
  {
    if rest == "" then (if faulty then ReadError else Logged(builder))
    else
      var longer := builder + FirstLine(rest) + "\n";
      if |longer| >= limit then Logged(longer + TRUNCATED)
      else ReadFrom(longer, AfterFirst(rest), faulty, limit)
  }

  lemma {:induction false} JoinedSnoc(lines: seq<string>, line: string)
    ensures Joined(lines + [line]) == Joined(lines) + line + "\n"
  {
    if lines == [] {
      assert Joined([line][1..]) == "";
    } else {
      JoinedSnoc(lines[1..], line);
      assert (lines + [line])[1..] == lines[1..] + [line];
    }
  }

  lemma LinesStep(lines: seq<string>, i: nat, rest: string)
    requires i <= |lines| && lines[i..] == Lines(rest) && rest != ""
    ensures i < |lines| && lines[i + 1..] == Lines(AfterFirst(rest))
    ensures Joined(lines[..i + 1]) == Joined(lines[..i]) + FirstLine(rest) + "\n"
  {
    assert lines[i] == lines[i..][0];
    assert lines[i + 1..] == lines[i..][1..];
    assert lines[..i + 1] == lines[..i] + [lines[i]];
    JoinedSnoc(lines[..i], lines[i]);
  }

  ghost function CutBody(lines: seq<string>, k: nat, faulty: bool, limit: int): Body
    requires k <= |lines|
  {
    if Reached(lines, k, limit) then Logged(Joined(lines[..k]) + TRUNCATED)
    else if faulty then ReadError
    else Logged(Joined(lines[..k]))
  }

  lemma {:induction false} ReadFromIsCut(lines: seq<string>, i: nat, rest: string, faulty: bool, limit: int)
    requires i <= |lines| && lines[i..] == Lines(rest)
    requires !Reached(lines, i, limit)
    ensures ReadFrom(Joined(lines[..i]), rest, faulty, limit) ==
            CutBody(lines, CutFrom(lines, i, limit), faulty, limit)
    decreases |rest|
  {
    if rest != "" {
      LinesStep(lines, i, rest);
      if !Reached(lines, i + 1, limit) {
        ReadFromIsCut(lines, i + 1, AfterFirst(rest), faulty, limit);
      }
    }
  }

  lemma ReadFromIsTruncatedBody(s: string, faulty: bool, limit: int)
    ensures TruncatedBody(s, faulty, limit) ==
            match ReadFrom("", s, faulty, limit)
            case Logged(text) => Logged(Masked(text))
            case ReadError => ReadError
  {
    var lines := Lines(s);
    assert lines[0..] == lines;
    assert Joined(lines[..0]) == "";
    ReadFromIsCut(lines, 0, s, faulty, limit);
    var k := CutFrom(lines, 0, limit);
    assert Joined(lines[..k]) + "" == Joined(lines[..k]);
  }

  method ReadTruncatedBody(reader: TextReader, len: int) returns (body: Body)
    modifies reader
    ensures body == TruncatedBody(old(reader.rest), reader.faulty, len)
  {
    ghost var text := reader.rest;
    ghost var all := ReadFrom("", text, reader.faulty, len);
    var builder := "";
    while true
      invariant ReadFrom(builder, reader.rest, reader.faulty, len) == all
      decreases |reader.rest|
    {
      var line := reader.ReadLine();
      if line.Eof? {
        break;
      }
      if line.Fault? {
        ReadFromIsTruncatedBody(text, reader.faulty, len);
        return ReadError;
      }
      builder := builder + line.text + "\n";
      if |builder| >= len {
        builder := builder + TRUNCATED;
        break;
      }
    }
    ReadFromIsTruncatedBody(text, reader.faulty, len);
    var masked := MaskAWSSensitiveValues(builder);
    return Logged(masked);
  }

  // --------------------------------------------------------------- lemmas

  // k lines are the shortest non-empty run of first lines reaching the limit, or
  // all lines when there is none.
  ghost predicate IsCut(lines: seq<string>, k: nat, limit: int) {
    && k <= |lines|
    && (forall m :: 0 < m < k ==> |Joined(lines[..m])| < limit)
    && (k == |lines| || Reached(lines, k, limit))
  }

  lemma {:induction false} CutFromIsCut(lines: seq<string>, k: nat, limit: int)
    requires k <= |lines|
    requires forall m :: 0 < m <= k ==> |Joined(lines[..m])| < limit
    ensures IsCut(lines, CutFrom(lines, k, limit), limit)
    decreases |lines| - k
  {
    if k < |lines| && |Joined(lines[..k + 1])| < limit {
      CutFromIsCut(lines, k + 1, limit);
    }
  }

  lemma CutUnique(lines: seq<string>, k: nat, m: nat, limit: int)
    requires IsCut(lines, k, limit) && IsCut(lines, m, limit)
    ensures k == m
  {
  }

  lemma {:induction false} JoinedGrows(lines: seq<string>, k: nat)
    requires k <= |lines|
    ensures |Joined(lines[..k])| + (|lines| - k) <= |Joined(lines)|
    decreases |lines| - k
  {
    if k == |lines| {
      assert lines[..k] == lines;
    } else {
      JoinedGrows(lines, k + 1);
      assert lines[..k + 1] == lines[..k] + [lines[k]];
      JoinedSnoc(lines[..k], lines[k]);
    }
  }

  // The text is all of the normalised body up to the cut; the marker follows
  // exactly when the normalised body has at least `limit` characters (and is not
  // empty); without its last line the text stays below a positive limit.
  lemma TruncatedTextSpec(s: string, limit: int)
    ensures var lines := Lines(s);
            var k := CutFrom(lines, 0, limit);
            && IsCut(lines, k, limit)
            && TruncatedText(s, limit) ==
               Joined(lines[..k]) + (if s != "" && |Normalised(s)| >= limit then TRUNCATED else "")
            && (0 < limit && 0 < k ==> |Joined(lines[..k - 1])| < limit)
  {
    var lines := Lines(s);
    var k := CutFrom(lines, 0, limit);
    CutFromIsCut(lines, 0, limit);
    JoinedGrows(lines, k);
    assert lines[..|lines|] == lines;
    assert Joined(lines[..0]) == "";
  }

  function CarriageReturnsDropped(s: string): nat
    decreases |s|
  {
    if s == "" then 0
    else (if |FirstLine(s)| < LineFeed(s) then 1 else 0) + CarriageReturnsDropped(AfterFirst(s))
  }

  predicate Unterminated(s: string) {
    s != "" && s[|s| - 1] != '\n'
  }

  lemma NormalisedCons(s: string)
    requires s != ""
    ensures Normalised(s) == FirstLine(s) + "\n" + Normalised(AfterFirst(s))
  {
    assert Lines(s)[1..] == Lines(AfterFirst(s));
  }

  lemma FirstLineLength(s: string)
    requires s != ""
    ensures |FirstLine(s)| + (if |FirstLine(s)| < LineFeed(s) then 1 else 0) + 1 + |AfterFirst(s)| ==
            |s| + (if LineFeed(s) == |s| then 1 else 0)
    ensures Unterminated(s) == (LineFeed(s) == |s| || Unterminated(AfterFirst(s)))
  {
  }

  // Normalising drops one character for every CR LF and adds one when the last
  // line is unterminated.
  lemma {:induction false} NormalisedLength(s: string)
    ensures |Normalised(s)| + CarriageReturnsDropped(s) == |s| + if Unterminated(s) then 1 else 0
    decreases |s|
  {
    if s != "" {
      NormalisedCons(s);
      FirstLineLength(s);
      NormalisedLength(AfterFirst(s));
    }
  }

  ghost predicate WithoutReturn(s: string) {
    forall i :: 0 <= i < |s| ==> s[i] != '\r'
  }

  // One line of a text without CR: its terminator, if any, is all that follows it.
  lemma FirstLineText(s: string)
    requires s != "" && WithoutReturn(s)
    ensures WithoutReturn(AfterFirst(s))
    ensures if LineFeed(s) < |s| then s == FirstLine(s) + "\n" + AfterFirst(s)
            else s == FirstLine(s) && AfterFirst(s) == "" && Unterminated(s)
  {
    var n, rest := LineFeed(s), AfterFirst(s);
    forall i | 0 <= i < |rest|
      ensures rest[i] != '\r'
    {
      assert rest[i] == s[n + 1 + i];
    }
    if n < |s| {
      assert FirstLine(s) == s[..n] && rest == s[n + 1..];
      assert s == s[..n] + [s[n]] + s[n + 1..];
    }
  }

  // A text without CR is only terminated, never changed.
  lemma {:induction false} NormalisedText(s: string)
    requires WithoutReturn(s)
    ensures Normalised(s) == if Unterminated(s) then s + "\n" else s
    decreases |s|
  {
    if s != "" {
      var line, rest := FirstLine(s), AfterFirst(s);
      FirstLineText(s);
      NormalisedCons(s);
      NormalisedText(rest);
      if LineFeed(s) < |s| { TerminateLine(s, line, rest); }
    }
  }

  lemma TerminateLine(s: string, line: string, rest: string)
    requires s == line + "\n" + rest
    ensures line + "\n" + (rest + "\n") == s + "\n"
    ensures Unterminated(s) <==> Unterminated(rest)
  {
  }

  lemma TruncatedLength(s: string, limit: int)
    ensures |TruncatedText(s, limit)| <= |s| + 1 + |TRUNCATED|
  {
    var lines := Lines(s);
    JoinedGrows(lines, CutFrom(lines, 0, limit));
    NormalisedLength(s);
  }

  // ---------------------------------------- what follows the cut is irrelevant

  // The number of terminated lines.
  function LineFeeds(s: string): nat
    decreases |s|
  {
    if LineFeed(s) == |s| then 0 else 1 + LineFeeds(AfterFirst(s))
  }

  lemma PrefixFirstLine(s: string, b: string)
    requires b <= s && LineFeed(b) < |b|
    ensures FirstLine(b) == FirstLine(s) && AfterFirst(b) <= AfterFirst(s)
  {
    var m := LineFeed(b);
    assert s[m] == b[m];
    assert forall i :: 0 <= i < m ==> s[i] == b[i];
    assert LineFeed(s) == m;
    assert b[..m] == s[..m];
    assert m > 0 ==> b[m - 1] == s[m - 1] && b[..m - 1] == s[..m - 1];
  }

  lemma ConsPrefix(x: string, a: seq<string>, b: seq<string>, k: nat)
    requires k <= |a| && k <= |b| && a[..k] == b[..k]
    ensures ([x] + a)[..k + 1] == ([x] + b)[..k + 1]
  {
    assert ([x] + a)[..k + 1] == [x] + a[..k];
    assert ([x] + b)[..k + 1] == [x] + b[..k];
  }

  // A prefix that holds k terminated lines keeps the first k lines.
  lemma {:induction false} PrefixLines(s: string, b: string, k: nat)
    requires b <= s && k <= LineFeeds(b)
    ensures k <= |Lines(b)| && k <= |Lines(s)| && Lines(b)[..k] == Lines(s)[..k]
    decreases k
  {
    if k > 0 {
      PrefixFirstLine(s, b);
      var s', b' := AfterFirst(s), AfterFirst(b);
      PrefixLines(s', b', k - 1);
      ConsPrefix(FirstLine(s), Lines(s'), Lines(b'), k - 1);
    }
  }

  // A reader of only a prefix logs what a reader of the whole text logs whenever
  // the line that reaches the limit is terminated inside the prefix.
  lemma PrefixSuffices(s: string, b: string, limit: int)
    requires b <= s
    requires var k := CutFrom(Lines(s), 0, limit); Reached(Lines(s), k, limit) && k <= LineFeeds(b)
    ensures TruncatedText(b, limit) == TruncatedText(s, limit)
  {
    var k := CutFrom(Lines(s), 0, limit);
    CutFromIsCut(Lines(s), 0, limit);
    PrefixLines(s, b, k);
    SameCut(Lines(s), Lines(b), k, limit);
  }

  lemma SameCut(lines: seq<string>, short: seq<string>, k: nat, limit: int)
    requires k <= |lines| && k <= |short| && short[..k] == lines[..k]
    requires IsCut(lines, k, limit) && Reached(lines, k, limit)
    ensures CutFrom(short, 0, limit) == k && Reached(short, k, limit)
  {
    forall m | 0 < m <= k
      ensures short[..m] == lines[..m]
    {
      assert short[..k][..m] == short[..m] && lines[..k][..m] == lines[..m];
    }
    CutFromIsCut(short, 0, limit);
    CutUnique(short, CutFrom(short, 0, limit), k, limit);
  }
}
