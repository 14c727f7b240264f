/**
 What masking a truncated body shows of the whole one (logging/http.go,
 ReadTruncatedBody).
 */
module LogBodyCut {
  import opened Redaction
  import opened RedactionProperties
  import opened RedactionLocality
  import opened RedactionHiding
  import opened RedactionCut
  import opened LogBody
  import opened LogBodyPrefix
  import opened Strings

  // The lines that are logged, terminated.
  function LoggedLines(s: string, limit: int): string {
    Joined(Lines(s)[..CutFrom(Lines(s), 0, limit)])
  }

  function Marker(s: string, limit: int): string {
    if Reached(Lines(s), CutFrom(Lines(s), 0, limit), limit) then TRUNCATED else ""
  }

  lemma MarkerKept(s: string, limit: int)
    ensures Masked(Marker(s, limit)) == Marker(s, limit)
  {
    UntouchedIff(Marker(s, limit));
    assert forall p :: 0 <= p < |TRUNCATED| ==> !KeyAt(TRUNCATED, p);
  }

  // What is logged is the start of the normalised body.
  lemma {:induction false} LoggedLinesStart(s: string, limit: int) returns (rest: string)
    ensures Normalised(s) == LoggedLines(s, limit) + rest
  {
    var lines := Lines(s);
    var k := CutFrom(lines, 0, limit);
    assert lines == lines[..k] + lines[k..];
    JoinedAppend(lines[..k], lines[k..]);
    rest := Joined(lines[k..]);
  }

  lemma {:induction false} JoinedEnds(lines: seq<string>)
    ensures lines != [] ==> var t := Joined(lines); t != "" && t[|t| - 1] == '\n'
  {
    if |lines| > 1 { JoinedEnds(lines[1..]); }
  }

  lemma MaskedAfterLine(a: string, rest: string)
    ensures Masked(a + "\n" + rest) == Masked(a + "\n") + Masked(rest)
  {
    MaskedJoinTwo(a, "\n", rest);
    MaskedJoinTwo(a, "\n", "");
    assert a + "\n" + "" == a + "\n" && Masked("") == "";
    assert Masked(a) + "\n" + "" == Masked(a) + "\n";
  }

  // Lines at the start of a longer text are masked as if alone.
  lemma MaskedLines(lines: seq<string>, rest: string)
    ensures Masked(Joined(lines) + rest) == Masked(Joined(lines)) + Masked(rest)
  {
    var t := Joined(lines);
    if lines == [] {
      assert t + rest == rest && Masked(t) == "" && "" + Masked(rest) == Masked(rest);
    } else {
      JoinedEnds(lines);
      var a := t[..|t| - 1];
      assert t == a + "\n";
      MaskedAfterLine(a, rest);
    }
  }

  // Truncating and then masking is masking the whole normalised body and then
  // truncating: cutting at the end of a line shows nothing.
  lemma TruncateThenMask(s: string, limit: int)
    ensures |LoggedLines(s, limit)| <= |Normalised(s)|
    ensures Masked(TruncatedText(s, limit)) ==
            Masked(Normalised(s))[..|LoggedLines(s, limit)|] + Marker(s, limit)
  {
    var lines := Lines(s)[..CutFrom(Lines(s), 0, limit)];
    var rest := LoggedLinesStart(s, limit);
    MaskedLines(lines, rest);
    MaskedLines(lines, Marker(s, limit));
    MarkerKept(s, limit);
  }

  lemma MaskedLoggedLines(s: string, limit: int)
    ensures Masked(TruncatedText(s, limit)) == Masked(LoggedLines(s, limit)) + Marker(s, limit)
  {
    MaskedLines(Lines(s)[..CutFrom(Lines(s), 0, limit)], Marker(s, limit));
    MarkerKept(s, limit);
  }

  // The marker, literally, and when it follows.
  lemma MarkerIs(s: string, limit: int)
    ensures Marker(s, limit) == if s != "" && |Normalised(s)| >= limit then "[truncated...]" else ""
    ensures |Normalised(s)| < limit ==> LoggedLines(s, limit) == Normalised(s)
  {
    var lines := Lines(s);
    var k := CutFrom(lines, 0, limit);
    TruncatedTextSpec(s, limit);
    JoinedGrows(lines, k);
    assert lines[..|lines|] == lines;
    assert Joined(lines[..0]) == "";
  }

  // The lines, literally: each loses its LF or CR LF, and gets one LF.
  lemma NormalisedIs(a: string, rest: string)
    requires '\n' !in a
    ensures Normalised("") == ""
    ensures a != "" ==> Normalised(a) == a + "\n"
    ensures Normalised(a + "\r\n" + rest) == a + "\n" + Normalised(rest)
    ensures a == "" || a[|a| - 1] != '\r' ==> Normalised(a + "\n" + rest) == a + "\n" + Normalised(rest)
  {
    OneLineFirst(a, "\r\n", rest);
    OneLineFirst(a, "\n", rest);
    NormalisedCons(a + "\r\n" + rest);
    NormalisedCons(a + "\n" + rest);
    if a != "" {
      assert LineFeed(a) == |a| && FirstLine(a) == a && AfterFirst(a) == "";
      NormalisedCons(a);
    }
  }

  lemma OneLineFirst(a: string, end: string, rest: string)
    requires '\n' !in a && (end == "\r\n" || end == "\n")
    ensures var s := a + end + rest;
            && AfterFirst(s) == rest
            && (end == "\r\n" || a == "" || a[|a| - 1] != '\r' ==> FirstLine(s) == a)
  {
    var s, n := a + end + rest, |a| + |end| - 1;
    assert s[n] == '\n';
    forall k | 0 <= k < n
      ensures s[k] != '\n'
    {
      assert k < |a| ==> s[k] == a[k];
    }
    assert LineFeed(s) == n;
    assert n > 0 ==> s[n - 1] == if end == "\n" then a[|a| - 1] else '\r';
    assert s[..|a|] == a && s[n + 1..] == rest;
  }

  // The logged body, literally: nothing but an error when the input fails before
  // the limit is reached.
  lemma BodyIs(s: string, faulty: bool, limit: int)
    ensures TruncatedBody(s, faulty, limit) ==
            if s != "" && |Normalised(s)| >= limit then Logged(Masked(LoggedLines(s, limit)) + "[truncated...]")
            else if faulty then ReadError
            else Logged(Masked(Normalised(s)))
  {
    MarkerIs(s, limit);
    MaskedLoggedLines(s, limit);
    if s == "" {
      assert Lines(s) == [] && LoggedLines(s, limit) == "";
    }
  }

  // ------------------------------------------------ a reader of a prefix only

  // How much of the body the logged text holds: not the marker, nor a line feed
  // that the body does not have.
  function LoggedLength(b: string, limit: int): int {
    |LoggedLines(b, limit)| - if CutFrom(Lines(b), 0, limit) > LineFeeds(b) then 1 else 0
  }

  // The text t logged for a prefix agrees with the normalised whole body in its
  // first c characters, but for a CR that the whole shows to be part of a CR LF.
  ghost predicate StartsAlike(t: string, whole: string, c: int) {
    && 0 <= c <= |whole| && c <= |t|
    && (c == |t| || !IsBase64(t[c]))
    && (t[..c] == whole[..c] || (c > 0 && t[..c - 1] == whole[..c - 1] && t[c - 1] == '\r' && whole[c - 1] == '\n'))
  }

  lemma PartialLine(s: string, b: string)
    requires b <= s && LineFeed(b) == |b| && b != ""
    ensures b <= FirstLine(s) || b == FirstLine(s) + "\r"
  {
    FirstLineHasNoLineFeed(s, b);
    assert LineFeed(s) >= |b| by { assert forall i :: 0 <= i < |b| ==> s[i] == b[i]; }
  }

  lemma StartOfLines(s: string, b: string, limit: int)
    requires b <= s && CutFrom(Lines(b), 0, limit) <= LineFeeds(b)
    ensures StartsAlike(TruncatedText(b, limit), Normalised(s), LoggedLength(b, limit))
  {
    var k := CutFrom(Lines(b), 0, limit);
    PrefixLines(s, b, k);
    assert Lines(s) == Lines(s)[..k] + Lines(s)[k..];
    JoinedAppend(Lines(s)[..k], Lines(s)[k..]);
  }

  lemma JoinedPartial(lines: seq<string>, s: string)
    requires s != ""
    ensures Joined(lines + Lines(s)) == Joined(lines) + FirstLine(s) + "\n" + Joined(Lines(AfterFirst(s)))
  {
    LinesAfter(lines, s);
    JoinedAppend(lines + [FirstLine(s)], Lines(AfterFirst(s)));
    JoinedSnoc(lines, FirstLine(s));
  }

  lemma StartWithPartialLine(lines: seq<string>, s: string, b: string, marker: string)
    requires b <= s && LineFeed(b) == |b| && b != ""
    ensures StartsAlike(Joined(lines) + b + "\n" + marker, Joined(lines + Lines(s)), |Joined(lines) + b|)
  {
    PartialLine(s, b);
    JoinedPartial(lines, s);
    var j, u := Joined(lines), "\n" + marker;
    assert j + b + "\n" + marker == j + b + u;
    StartsWithText(j, b, FirstLine(s), u, Joined(Lines(AfterFirst(s))));
  }

  lemma StartsWithText(j: string, b: string, line: string, u: string, v: string)
    requires (b <= line || b == line + "\r") && u != "" && !IsBase64(u[0])
    ensures StartsAlike(j + b + u, j + line + "\n" + v, |j + b|)
  {
    var t, whole, c := j + b + u, j + line + "\n" + v, |j + b|;
    assert t[c] == u[0];
    if b <= line {
      assert t[..c] == whole[..c];
    } else {
      assert t[..c - 1] == j + line == whole[..c - 1];
    }
  }

  lemma LoggedPartial(b: string, lines: seq<string>, last: string, limit: int)
    requires Lines(b) == lines + [last] && |lines| == LineFeeds(b) < CutFrom(Lines(b), 0, limit)
    ensures TruncatedText(b, limit) == Joined(lines) + last + "\n" + Marker(b, limit)
    ensures LoggedLength(b, limit) == |Joined(lines) + last|
  {
    assert Lines(b)[..|lines| + 1] == lines + [last];
    JoinedSnoc(lines, last);
  }

  lemma LoggedStart(s: string, b: string, limit: int)
    requires b <= s
    ensures StartsAlike(TruncatedText(b, limit), Normalised(s), LoggedLength(b, limit))
  {
    if CutFrom(Lines(b), 0, limit) <= LineFeeds(b) {
      StartOfLines(s, b, limit);
    } else {
      var h := LastIndex(b, '\n') + 1;
      var lines, s', b' := Terminated(b), s[h..], b[h..];
      TerminatedLines(s, b, h, s');
      TerminatedLines(b, b, h, b');
      PartialTail(s, b, h);
      assert b' != "" by { assert b' == "" ==> lines + Lines(b') == lines; }
      LinesAfter(lines, b');
      LoggedPartial(b, lines, b', limit);
      StartWithPartialLine(lines, s', b', Marker(b, limit));
    }
  }

  lemma PartialTail(s: string, b: string, h: nat)
    requires b <= s && IsTail(b, h)
    ensures b[h..] <= s[h..] && LineFeed(b[h..]) == |b[h..]|
  {
  }

  // Character i of what is logged for a prefix is one of the body that masking
  // the whole of it stars.
  ghost predicate Shows(t: string, whole: string, c: int, i: int) {
    0 <= i < c && i < |whole| && i < |t| && Masked(whole)[i] == '*' && Masked(t)[i] != '*'
  }

  lemma StarIff(s: string, i: nat)
    requires i < |s|
    ensures Masked(s)[i] == '*' <==> Starred(s, i) || s[i] == '*'
  {
    MaskedAt(s);
  }

  lemma ShowsAtCut(t: string, whole: string, c: nat, i: int)
    requires c <= |t| && c <= |whole| && (c == |t| || !IsBase64(t[c])) && t[..c] == whole[..c]
    ensures Shows(t, whole, c, i) <==> ShownByCut(whole, c, i)
  {
    if 0 <= i < c {
      var x := whole[..c];
      assert t[0..c] == x;
      MaskedLocal(t, 0, c);
      assert Masked(t)[0..c][i] == Masked(t)[i];
      StarIff(whole, i);
      StarIff(x, i);
      if Starred(whole, i) { StarredIsBase64(whole, i); }
    }
  }

  lemma StartsAlikeShows(t: string, whole: string, c: int)
    requires StartsAlike(t, whole, c)
    ensures (exists i :: Shows(t, whole, c, i)) <==> SomethingCrosses(whole, c)
  {
    if t[..c] == whole[..c] {
      forall i
        ensures Shows(t, whole, c, i) <==> ShownByCut(whole, c, i)
      {
        ShowsAtCut(t, whole, c, i);
      }
      CutShowsIff(whole, c);
    } else {
      NothingCrosses(whole, c);
      LineEndShowsNothing(t, whole, c);
    }
  }

  // A reader of a prefix shows a character that masking the whole normalised body
  // stars exactly when an access key or a 40-character run of that body, its masked
  // part begun, goes on past what was read.
  lemma PrefixShowsIff(s: string, b: string, limit: int)
    requires b <= s
    ensures var t, whole, c := TruncatedText(b, limit), Normalised(s), LoggedLength(b, limit);
            && 0 <= c <= |whole|
            && ((exists i :: Shows(t, whole, c, i)) <==> SomethingCrosses(whole, c))
  {
    LoggedStart(s, b, limit);
    StartsAlikeShows(TruncatedText(b, limit), Normalised(s), LoggedLength(b, limit));
  }

  lemma LineEndShowsNothing(t: string, whole: string, c: nat)
    requires 0 < c <= |t| && c <= |whole|
    requires t[..c - 1] == whole[..c - 1] && t[c - 1] == '\r' && whole[c - 1] == '\n'
    ensures forall i :: !Shows(t, whole, c, i)
  {
    NothingCrosses(whole, c - 1);
    CutShowsIff(whole, c - 1);
    forall i
      ensures !Shows(t, whole, c, i)
    {
      if i == c - 1 {
        LineFeedKept(whole, c - 1);
      } else {
        ShowsAtCut(t, whole, c - 1, i);
      }
    }
  }
}
