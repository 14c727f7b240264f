/**
 Exactly when a body that is read only up to some position is logged like the
 whole of it (logging/http.go, ReadTruncatedBody).
 */
module LogBodyPrefix {
  import opened Redaction
  import opened RedactionProperties
  import opened RedactionLocality
  import opened LogBody
  import opened Strings

  // `rest` goes on with nothing but the terminator of the last line of b.
  predicate OnlyTerminator(b: string, rest: string) {
    && Unterminated(b)
    && (("\n" <= rest && b[|b| - 1] != '\r') || "\r\n" <= rest)
  }

  // The lines terminated in b, without their terminators.
  function Terminated(b: string): (r: seq<string>)
    ensures |r| == LineFeeds(b)
    decreases |b|
  {
    if LineFeed(b) == |b| then [] else [FirstLine(b)] + Terminated(AfterFirst(b))
  }

  // h is just past the last line feed of b.
  ghost predicate IsTail(b: string, h: nat) {
    h <= |b| && (h == 0 || b[h - 1] == '\n') && forall i :: h <= i < |b| ==> b[i] != '\n'
  }

  lemma LinesCons(s: string)
    requires s != ""
    ensures Lines(s) == [FirstLine(s)] + Lines(AfterFirst(s))
  {
  }

  lemma TerminatedCons(s: string, b: string, others: seq<string>)
    requires b <= s && LineFeed(b) < |b|
    requires Lines(AfterFirst(s)) == Terminated(AfterFirst(b)) + others
    ensures Lines(s) == Terminated(b) + others
  {
    PrefixFirstLine(s, b);
    LinesCons(s);
    Regroup(FirstLine(b), Terminated(AfterFirst(b)), others);
  }

  lemma TerminatedNil(others: seq<string>)
    ensures [] + others == others
  {
  }

  // They are the first lines of s; the others are those of t, from h on.
  lemma {:induction false} TerminatedLines(s: string, b: string, h: nat, t: string)
    requires b <= s && IsTail(b, h) && s[h..] == t
    ensures Lines(s) == Terminated(b) + Lines(t)
    decreases |b|
  {
    if LineFeed(b) == |b| {
      TerminatedNil(Lines(t));
      assert s[0..] == s;
    } else {
      TailAfter(s, b, h);
      TerminatedLines(AfterFirst(s), AfterFirst(b), h - LineFeed(b) - 1, t);
      TerminatedCons(s, b, Lines(t));
    }
  }

  lemma TailAfter(s: string, b: string, h: nat)
    requires b <= s && IsTail(b, h) && LineFeed(b) < |b|
    ensures var h' := h - LineFeed(b) - 1;
            h' >= 0 && IsTail(AfterFirst(b), h') && AfterFirst(b) <= AfterFirst(s) && s[h..] == AfterFirst(s)[h'..]
  {
    var n, b', s' := LineFeed(b), AfterFirst(b), AfterFirst(s);
    PrefixFirstLine(s, b);
    assert LineFeed(s) == n by { assert forall i :: 0 <= i <= n ==> s[i] == b[i]; }
    assert h >= n + 1;
    assert forall i :: 0 <= i < |b'| ==> b'[i] == b[i + n + 1];
    assert s' == s[n + 1..];
  }

  lemma Regroup(x: string, a: seq<string>, b: seq<string>)
    ensures [x] + (a + b) == [x] + a + b
  {
  }

  // The unterminated line b is a whole line of s exactly when only its terminator
  // is missing.
  lemma WholeLineIff(s: string, b: string)
    requires b <= s && b != s && b != "" && LineFeed(b) == |b|
    ensures FirstLine(s) == b <==> OnlyTerminator(b, s[|b|..])
  {
    var n, m, rest := LineFeed(s), |b|, s[|b|..];
    assert forall i :: 0 <= i < m ==> s[i] == b[i] != '\n';
    assert forall i :: m <= i < |s| ==> rest[i - m] == s[i];
    assert s[..m] == b;
    assert FirstLine(s) == b <==> |FirstLine(s)| == m;
    assert b[m - 1] == s[m - 1];
    assert "\n" <= rest <==> s[m] == '\n';
    assert "\r\n" <= rest <==> m + 1 < |s| && s[m] == '\r' && s[m + 1] == '\n';
  }

  // Texts that part at the end of a line, which is their own and no prefix of the
  // other, are not masked alike.
  lemma PartAtLine(x: string, a: string, b: string, u: string, v: string)
    requires a != b && (a <= b || b <= a)
    requires LineFeed(a) == |a| && LineFeed(b) == |b|
    ensures Masked(x + a + "\n" + u) != Masked(x + b + "\n" + v)
  {
    var s, t := x + a + "\n" + u, x + b + "\n" + v;
    var k := |x| + if a <= b then |a| else |b|;
    assert (s[k] == '\n') != (t[k] == '\n');
    LineFeedKept(s, k);
    LineFeedKept(t, k);
  }

  lemma LineFeedKept(s: string, k: nat)
    requires k < |s|
    ensures Masked(s)[k] == '\n' <==> s[k] == '\n'
  {
    MaskedAt(s);
    if KeyStarred(s, k) || SecretStarred(MaskKeys(s), k) { StarredIsBase64(s, k); }
  }

  // A cut past the first lines, taken apart.
  lemma CutBeyond(lines: seq<string>, line: string, more: seq<string>, limit: int) returns (rest: string)
    requires CutFrom(lines + [line] + more, 0, limit) > |lines|
    ensures CutText(lines + [line] + more, limit) == Joined(lines) + line + "\n" + rest
  {
    var all := lines + [line] + more;
    var k := CutFrom(all, 0, limit);
    var after := all[|lines| + 1..k];
    assert all[..k] == lines + [line] + after;
    JoinedAppend(lines + [line], after);
    JoinedSnoc(lines, line);
    rest := Joined(after) + if Reached(all, k, limit) then TRUNCATED else "";
  }

  lemma {:induction false} JoinedAppend(a: seq<string>, b: seq<string>)
    ensures Joined(a + b) == Joined(a) + Joined(b)
  {
    if a == [] {
      assert a + b == b;
    } else {
      JoinedAppend(a[1..], b);
      assert (a + b)[1..] == a[1..] + b;
    }
  }

  // Line lists with the same first lines, none of which reaches the limit.
  lemma CutPast(lines: seq<string>, more: seq<string>, other: seq<string>, limit: int)
    requires CutFrom(lines + more, 0, limit) > |lines|
    ensures CutFrom(lines + other, 0, limit) >= |lines|
    ensures !Reached(lines + other, |lines|, limit)
  {
    CutFromIsCut(lines + more, 0, limit);
    CutFromIsCut(lines + other, 0, limit);
    forall m | 0 < m <= |lines|
      ensures !Reached(lines + other, m, limit)
    {
      assert (lines + other)[..m] == (lines + more)[..m];
    }
  }

  lemma NoLastLine(lines: seq<string>, line: string, more: seq<string>, limit: int)
    requires CutFrom(lines + [line] + more, 0, limit) > |lines|
    ensures |CutText(lines, limit)| < |CutText(lines + [line] + more, limit)|
  {
    var rest := CutBeyond(lines, line, more, limit);
    assert lines + ([line] + more) == lines + [line] + more && lines + [] == lines == lines[..|lines|];
    CutPast(lines, [line] + more, [], limit);
    CutFromIsCut(lines, 0, limit);
  }

  // When the last line is the same, its cut has to be the last one too.
  lemma SameLastLine(lines: seq<string>, line: string, more: seq<string>, limit: int)
    requires var k := CutFrom(lines + [line] + more, 0, limit); k > |lines|
    ensures var k := CutFrom(lines + [line] + more, 0, limit);
            |CutText(lines + [line], limit)| == |CutText(lines + [line] + more, limit)| ==> k == |lines| + 1
    ensures var k := CutFrom(lines + [line] + more, 0, limit);
            k == |lines| + 1 ==> CutText(lines + [line], limit) == CutText(lines + [line] + more, limit)
  {
    var all, short := lines + [line] + more, lines + [line];
    var k := CutFrom(all, 0, limit);
    CutFromIsCut(all, 0, limit);
    assert all[..|short|] == short == short[..|short|];
    if k == |short| {
      assert lines + ([line] + more) == all;
      CutPast(lines, [line] + more, [line], limit);
      CutFromIsCut(short, 0, limit);
    } else {
      assert more == [more[0]] + more[1..] && short + [more[0]] + more[1..] == all;
      NoLastLine(short, more[0], more[1..], limit);
    }
  }

  // The same for a last line that is a prefix of the line, or the other way round.
  lemma LastLineIff(lines: seq<string>, line: string, more: seq<string>, last: string, limit: int)
    requires CutFrom(lines + [line] + more, 0, limit) > |lines|
    requires (line <= last || last <= line) && LineFeed(line) == |line| && LineFeed(last) == |last|
    ensures Masked(CutText(lines + [last], limit)) == Masked(CutText(lines + [line] + more, limit)) <==>
            last == line && CutFrom(lines + [line] + more, 0, limit) == |lines| + 1
  {
    if last == line {
      SameLastLine(lines, line, more, limit);
    } else {
      var rest := CutBeyond(lines, line, more, limit);
      assert lines + ([line] + more) == lines + [line] + more && lines + [last] + [] == lines + [last];
      CutPast(lines, [line] + more, [last], limit);
      CutFromIsCut(lines + [last], 0, limit);
      var end := CutBeyond(lines, last, [], limit);
      PartAtLine(Joined(lines), last, line, end, rest);
    }
  }

  lemma FirstLineHasNoLineFeed(s: string, b: string)
    requires b <= s && LineFeed(b) == |b|
    ensures LineFeed(FirstLine(s)) == |FirstLine(s)|
    ensures FirstLine(s) <= b || b <= FirstLine(s)
  {
  }

  lemma LinesAfter(lines: seq<string>, s: string)
    requires s != ""
    ensures lines + Lines(s) == lines + [FirstLine(s)] + Lines(AfterFirst(s))
    ensures LineFeed(s) == |s| ==> lines + Lines(s) == lines + [s]
  {
    LinesCons(s);
    RegroupMiddle(lines, FirstLine(s), Lines(AfterFirst(s)));
    assert LineFeed(s) == |s| ==> FirstLine(s) == s && Lines(AfterFirst(s)) == [];
  }

  lemma RegroupMiddle(a: seq<string>, x: string, b: seq<string>)
    ensures a + ([x] + b) == a + [x] + b
  {
  }

  // Texts that go on with an unterminated b and with a longer s, past the limit of
  // the lines before.
  lemma BeyondLineFeeds(lines: seq<string>, s: string, b: string, limit: int)
    requires b <= s && b != s && LineFeed(b) == |b| && CutFrom(lines + Lines(s), 0, limit) > |lines|
    ensures Masked(CutText(lines + Lines(b), limit)) == Masked(CutText(lines + Lines(s), limit)) <==>
            CutFrom(lines + Lines(s), 0, limit) == |lines| + 1 && OnlyTerminator(b, s[|b|..])
  {
    LinesAfter(lines, s);
    if b == "" {
      assert lines + Lines(b) == lines;
      NoLastLine(lines, FirstLine(s), Lines(AfterFirst(s)), limit);
    } else {
      LinesAfter(lines, b);
      FirstLineHasNoLineFeed(s, b);
      WholeLineIff(s, b);
      LastLineIff(lines, FirstLine(s), Lines(AfterFirst(s)), b, limit);
    }
  }

  lemma SameTerminator(s: string, b: string, h: nat)
    requires b <= s && b != s && IsTail(b, h)
    ensures b[h..] <= s[h..] && b[h..] != s[h..] && LineFeed(b[h..]) == |b[h..]|
    ensures OnlyTerminator(b, s[|b|..]) <==> OnlyTerminator(b[h..], s[h..][|b[h..]|..])
  {
    assert forall i :: 0 <= i < |b| ==> s[i] == b[i];
    assert s[h..][|b| - h..] == s[|b|..];
  }

  // A proper prefix b of s is logged like s exactly when every line of s up to the
  // cut is terminated in b, or all that the last of them lacks is its terminator.
  lemma PrefixLoggedIff(s: string, b: string, limit: int)
    requires b <= s && b != s
    ensures var k := CutFrom(Lines(s), 0, limit);
            Masked(TruncatedText(b, limit)) == Masked(TruncatedText(s, limit)) <==>
            k <= LineFeeds(b) || (k == LineFeeds(b) + 1 && OnlyTerminator(b, s[|b|..]))
  {
    var h := LastIndex(b, '\n') + 1;
    var lines, s', b' := Terminated(b), s[h..], b[h..];
    TerminatedLines(s, b, h, s');
    SameTerminator(s, b, h);
    if CutFrom(Lines(s), 0, limit) <= |lines| {
      LinesCons(s');
      CutFromIsCut(Lines(s), 0, limit);
      PrefixSuffices(s, b, limit);
    } else {
      TerminatedLines(b, b, h, b');
      BeyondLineFeeds(lines, s', b', limit);
    }
  }
}
