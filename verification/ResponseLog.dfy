/**
 The v1 shim's response log (v2/awsv1shim/logger.go): a tee into a limited
 buffer, then the buffered body through ReadTruncatedBody.
 */
module ResponseLog {
  import opened Redaction
  import opened LogBody
  import opened LogBodyPrefix
  import opened LogBodyCut
  import opened RedactionCut
  import opened RedactionHiding

  const MAX_RESPONSE_BODY_LEN := 4096
  const RESPONSE_BUFFER_LEN := MAX_RESPONSE_BODY_LEN + 1024

  function Min(a: int, b: int): int {
    if a < b then a else b
  }

  /** The wrapped writer: an in-memory buffer, which never writes short. */
  class Buffer {
    var contents: string

    constructor ()
      ensures contents == ""
    {
      contents := "";
    }

    method Write(p: string) returns (n: nat)
      modifies this
      ensures contents == old(contents) + p && n == |p|
    {
      contents := contents + p;
      n := |p|;
    }
  }

  // Everything kept so far, and how much may still be kept.
  datatype WriterState = WriterState(kept: string, remaining: int)

  function WriteStep(st: WriterState, p: string): WriterState {
    if st.remaining <= 0 then st
    else WriterState(st.kept + p[..Min(|p|, st.remaining)], st.remaining - Min(|p|, st.remaining))
  }

  class LimitedWriter {
    const target: Buffer
    var remaining: int

    constructor (target: Buffer, limit: int)
      ensures this.target == target && remaining == limit
    {
      this.target := target;
      remaining := limit;
    }

    function State(): WriterState
      reads this, target
    {
      WriterState(target.contents, remaining)
    }

    method Write(p: string) returns (written: int)
      modifies this`remaining, target
      ensures State() == WriteStep(old(State()), p)
      ensures written == |p|
    {
      if remaining <= 0 {
        return |p|;
      }
      if |p| > remaining {
        var n := target.Write(p[0..remaining]);
        remaining := remaining - n;
        return |p|;
      } else {
        var n := target.Write(p);
        remaining := remaining - n;
        assert p[..|p|] == p;
        return n;
      }
    }
  }

  method DecomposeResponseBody(content: string) returns (body: Body)
    ensures body == Logged(Masked(TruncatedText(content, MAX_RESPONSE_BODY_LEN)))
  {
    var reader := new TextReader(content, false);
    body := ReadTruncatedBody(reader, MAX_RESPONSE_BODY_LEN);
  }

  // ----------------------------------------------------- runs of the writer

  function WriteRun(st: WriterState, chunks: seq<string>): WriterState
    decreases |chunks|
  {
    if chunks == [] then st else WriteRun(WriteStep(st, chunks[0]), chunks[1..])
  }

  function Concat(chunks: seq<string>): string
    decreases |chunks|
  {
    if chunks == [] then "" else chunks[0] + Concat(chunks[1..])
  }

  function Budget(st: WriterState): nat {
    if st.remaining > 0 then st.remaining else 0
  }

  // However the stream is cut into writes, the first `Budget` characters of it
  // are appended, and the budget shrinks by what was appended.
  lemma {:induction false} WriteRunKeeps(st: WriterState, chunks: seq<string>)
    ensures var all := Concat(chunks);
            var m := Min(|all|, Budget(st));
            WriteRun(st, chunks) == WriterState(st.kept + all[..m], st.remaining - m)
    decreases |chunks|
  {
    if chunks != [] {
      var next := WriteStep(st, chunks[0]);
      var all, tail := Concat(chunks), Concat(chunks[1..]);
      WriteRunKeeps(next, chunks[1..]);
      var m, k := Min(|all|, Budget(st)), Min(|tail|, Budget(next));
      assert next.kept + tail[..k] == st.kept + all[..m];
    }
  }

  // The budget plus the characters kept is the limit throughout, the budget never
  // goes below zero, and two chunkings of one stream end in the same state.
  lemma WriteRunConserves(limit: nat, chunks: seq<string>, other: seq<string>)
    ensures var st := WriteRun(WriterState("", limit), chunks);
            && st.remaining >= 0
            && st.remaining + |st.kept| == limit
            && st.kept == Concat(chunks)[..Min(limit, |Concat(chunks)|)]
            && (Concat(chunks) == Concat(other) ==> st == WriteRun(WriterState("", limit), other))
  {
    WriteRunKeeps(WriterState("", limit), chunks);
    WriteRunKeeps(WriterState("", limit), other);
  }

  // ------------------------------------------------------------ end to end

  // The body string logged for a response that arrives in these chunks.
  ghost function LoggedBody(chunks: seq<string>): string {
    Masked(TruncatedText(WriteRun(WriterState("", RESPONSE_BUFFER_LEN), chunks).kept, MAX_RESPONSE_BODY_LEN))
  }

  lemma LoggedBodyIgnoresChunking(chunks: seq<string>, other: seq<string>)
    requires Concat(chunks) == Concat(other)
    ensures LoggedBody(chunks) == LoggedBody(other)
  {
    WriteRunConserves(RESPONSE_BUFFER_LEN, chunks, other);
  }

  lemma LoggedBodyBound(chunks: seq<string>)
    ensures |LoggedBody(chunks)| <= 5135
  {
    WriteRunConserves(RESPONSE_BUFFER_LEN, chunks, chunks);
    TruncatedLength(WriteRun(WriterState("", RESPONSE_BUFFER_LEN), chunks).kept, MAX_RESPONSE_BODY_LEN);
  }

  lemma LoggedBodyBoundReached()
    ensures exists chunks :: |LoggedBody(chunks)| == 5135
  {
    var line := seq(5120, _ => '-');
    var chunks := [line];
    assert Concat(chunks[1..]) == "";
    assert Concat(chunks) == line;
    WriteRunConserves(RESPONSE_BUFFER_LEN, chunks, chunks);
    assert WriteRun(WriterState("", RESPONSE_BUFFER_LEN), chunks).kept == line;
    assert LineFeed(line) == 5120;
    assert FirstLine(line) == line && AfterFirst(line) == "";
    assert Lines(line) == [line];
    assert [line][..1] == [line];
    assert Joined([line][..0]) == "";
    assert Joined([line]) == line + "\n";
    assert |LoggedBody(chunks)| == 5135;
  }

  // The shim logs what it would log from the whole stream exactly when the stream
  // fits its buffer, or every line up to the one that reaches the log limit is
  // terminated inside it, or the last of those lines lacks only its terminator.
  lemma BufferSuffices(chunks: seq<string>)
    ensures var all := Concat(chunks);
            var b := all[..Min(|all|, RESPONSE_BUFFER_LEN)];
            var k := CutFrom(Lines(all), 0, MAX_RESPONSE_BODY_LEN);
            LoggedBody(chunks) == Masked(TruncatedText(all, MAX_RESPONSE_BODY_LEN)) <==>
            || |all| <= RESPONSE_BUFFER_LEN
            || k <= LineFeeds(b)
            || (k == LineFeeds(b) + 1 && OnlyTerminator(b, all[|b|..]))
  {
    var all := Concat(chunks);
    var b := all[..Min(|all|, RESPONSE_BUFFER_LEN)];
    WriteRunConserves(RESPONSE_BUFFER_LEN, chunks, chunks);
    assert LoggedBody(chunks) == Masked(TruncatedText(b, MAX_RESPONSE_BODY_LEN));
    if |all| > RESPONSE_BUFFER_LEN {
      PrefixLoggedIff(all, b, MAX_RESPONSE_BODY_LEN);
    } else {
      assert b == all;
    }
  }

  // Character i that the shim logs is one of the stream's that masking the whole
  // normalised body stars.
  ghost predicate ShimShows(chunks: seq<string>, i: int) {
    var all := Concat(chunks);
    var b := all[..Min(|all|, RESPONSE_BUFFER_LEN)];
    Shows(TruncatedText(b, MAX_RESPONSE_BODY_LEN), Normalised(all), LoggedLength(b, MAX_RESPONSE_BODY_LEN), i)
  }

  // The shim shows such a character exactly when an access key or a 40-character
  // run, its masked part begun, goes on past the end of what is logged.
  lemma BufferShowsIff(chunks: seq<string>)
    ensures var all := Concat(chunks);
            var b := all[..Min(|all|, RESPONSE_BUFFER_LEN)];
            var c := LoggedLength(b, MAX_RESPONSE_BODY_LEN);
            && LoggedBody(chunks) == Masked(TruncatedText(b, MAX_RESPONSE_BODY_LEN))
            && 0 <= c <= |Normalised(all)|
            && ((exists i :: ShimShows(chunks, i)) <==> SomethingCrosses(Normalised(all), c))
  {
    var all := Concat(chunks);
    var b := all[..Min(|all|, RESPONSE_BUFFER_LEN)];
    WriteRunConserves(RESPONSE_BUFFER_LEN, chunks, chunks);
    PrefixShowsIff(all, b, MAX_RESPONSE_BODY_LEN);
    assert forall i :: ShimShows(chunks, i) <==>
      Shows(TruncatedText(b, MAX_RESPONSE_BODY_LEN), Normalised(all), LoggedLength(b, MAX_RESPONSE_BODY_LEN), i);
  }

  lemma OneLine(line: string)
    requires line != "" && LineFeed(line) == |line|
    ensures Lines(line) == [line] && LineFeeds(line) == 0 && Normalised(line) == line + "\n"
  {
    LinesCons(line);
    assert FirstLine(line) == line && Lines(AfterFirst(line)) == [];
    JoinedSnoc([], line);
    assert [] + [line] == [line] && Joined([]) + line + "\n" == line + "\n";
  }

  // A stream whose last 40 characters, one secret for the masker, the shim's
  // buffer cuts in two.
  lemma BufferCanShow()
    ensures exists chunks, i :: ShimShows(chunks, i)
  {
    var all := seq(5100, _ => '-') + seq(40, _ => 'x');
    var chunks, b := [all], all[..RESPONSE_BUFFER_LEN];
    assert Concat(chunks[1..]) == "" && Concat(chunks) == all;
    OneLine(all);
    OneLine(b);
    NoKeys(all + "\n");
    assert IsSecretAt(all + "\n", 5100);
    assert [b][..1] == [b] && [b][..0] == [];
    assert LoggedLength(b, MAX_RESPONSE_BODY_LEN) == 5120;
    assert SecretCrosses(Normalised(all), 5120, 5100);
    BufferShowsIff(chunks);
  }

  // The logged body ends in the marker exactly when what is kept of the stream, the
  // first 5120 characters, has lines of at least 4096 characters, line feeds included.
  lemma MarkedIff(chunks: seq<string>)
    ensures var all := Concat(chunks);
            var b := if |all| <= 5120 then all else all[..5120];
            LoggedBody(chunks) ==
              Masked(LoggedLines(b, 4096)) + if b != "" && |Normalised(b)| >= 4096 then "[truncated...]" else ""
    ensures var all := Concat(chunks);
            |all| <= 5120 && |Normalised(all)| < 4096 ==> LoggedBody(chunks) == Masked(Normalised(all))
  {
    var all := Concat(chunks);
    var b := if |all| <= 5120 then all else all[..5120];
    WriteRunConserves(RESPONSE_BUFFER_LEN, chunks, chunks);
    assert all[..|all|] == all;
    assert LoggedBody(chunks) == Masked(TruncatedText(b, 4096));
    MarkerIs(b, 4096);
    MaskedLoggedLines(b, 4096);
  }
}
