/**
 What the two masking passes of logging/aws.go guarantee together: each pass
 against a position-wise specification, the composition idempotent and leaving
 nothing to mask, and what two inputs must share to be logged alike.
 */
module RedactionProperties {
  import opened Regex
  import opened Redaction

  // ------------------------------------------ the search refines the pattern

  lemma AltOfLits(r: Regex, lits: seq<string>, w: string)
    ensures Matches(Alt([r] + seq(|lits|, i requires 0 <= i < |lits| => Lit(lits[i]))), w)
       <==> Matches(r, w) || w in lits
  {
    var choices := [r] + seq(|lits|, i requires 0 <= i < |lits| => Lit(lits[i]));
    assert choices[0] == r && r in choices;
    if w in lits {
      var i :| 0 <= i < |lits| && lits[i] == w;
      assert choices[1 + i] == Lit(w);
      assert Matches(choices[1 + i], w);
    }
    forall c | c in choices && Matches(c, w)
      ensures Matches(r, w) || w in lits
    {
      var i :| 0 <= i < |choices| && choices[i] == c;
      if i > 0 {
        assert c == Lit(lits[i - 1]);
        assert w == lits[i - 1];
      }
    }
  }

  lemma PrefixMatches(w: string)
    ensures Matches(UNIQUE_ID_PREFIX, w) <==> IsPrefix(w)
  {
    AltOfLits(A3T_PREFIX, LITERAL_PREFIXES, w);
    if |w| == 4 && w[..3] == "A3T" {
      assert w[3..][0] == w[3];
    }
  }

  lemma PrefixIsUpperDigit(w: string)
    requires IsPrefix(w)
    ensures |w| == 4 && AllIn(w, UpperDigit)
  {
    if w !in LITERAL_PREFIXES {
      assert forall i :: 0 <= i < 3 ==> w[i] == "A3T"[i];
    }
  }

  lemma WordMatches(w: string)
    ensures Matches(UNIQUE_ID_REGEX, w) <==> |w| >= 20 && IsPrefix(w[..4]) && AllIn(w[4..], UpperDigit)
  {
    forall i | 0 <= i <= |w| && Matches(UNIQUE_ID_PREFIX, w[..i])
      ensures i == 4 && IsPrefix(w[..i])
    {
      PrefixMatches(w[..i]);
      PrefixIsUpperDigit(w[..i]);
    }
    if |w| >= 20 {
      PrefixMatches(w[..4]);
    }
  }

  // The pattern matches s[p..q) exactly when a prefix starts at p and the whole
  // of s[p..q), at least 20 characters, lies in one run.
  lemma MatchesAtIff(s: string, p: nat, q: nat)
    ensures MatchesAt(UNIQUE_ID_REGEX, s, p, q) <==> q <= |s| && IsPrefixAt(s, p) && p + 20 <= q <= RunEnd(s, p)
  {
    if p + 20 <= q <= |s| {
      var w := s[p..q];
      WordMatches(w);
      assert w[..4] == s[p..p + 4];
      if IsPrefixAt(s, p) {
        PrefixIsUpperDigit(w[..4]);
        assert forall k :: p <= k < p + 4 ==> s[k] == w[..4][k - p];
        WholeInRun(s, p, q);
      }
    } else if p <= q <= |s| {
      WordMatches(s[p..q]);
    }
  }

  lemma WholeInRun(s: string, p: nat, q: nat)
    requires p + 4 <= q <= |s| && forall k :: p <= k < p + 4 ==> In(s[k], UpperDigit)
    ensures AllIn(s[p..q][4..], UpperDigit) <==> q <= RunEnd(s, p)
  {
    var w := s[p..q];
    assert forall k :: 0 <= k < |w[4..]| ==> w[4..][k] == s[p + 4 + k];
    if AllIn(w[4..], UpperDigit) {
      forall k | p <= k < q
        ensures In(s[k], UpperDigit)
      {
        if k >= p + 4 { assert w[4..][k - p - 4] == s[k]; }
      }
    }
  }

  // FindKey and RunEnd together are the engine's leftmost, greedy occurrence.
  lemma FindKeyIsLeftmostGreedy(s: string, from: nat)
    requires from <= |s|
    ensures var p := FindKey(s, from);
            if p == -1 then forall i, j :: from <= i ==> !MatchesAt(UNIQUE_ID_REGEX, s, i, j)
            else LeftmostGreedy(UNIQUE_ID_REGEX, s, from, p, RunEnd(s, p))
  {
    var p := FindKey(s, from);
    forall i, j | from <= i && MatchesAt(UNIQUE_ID_REGEX, s, i, j)
      ensures p != -1 && p <= i && (i == p ==> j <= RunEnd(s, p))
    {
      MatchesAtIff(s, i, j);
      assert KeyAt(s, i);
    }
    if p != -1 {
      MatchesAtIff(s, p, RunEnd(s, p));
    }
  }

  // ------------------------------------- pass one, position by position

  // p is the first prefix of its run that a key can start at.
  ghost predicate FirstKey(s: string, p: int) {
    0 <= p < |s| && KeyAt(s, p) && forall q :: 0 <= q < p && KeyAt(s, q) ==> RunEnd(s, q) <= p
  }

  ghost predicate KeyCovers(s: string, p: int, k: int) {
    FirstKey(s, p) && p + UNMASKED_FIRST <= k < RunEnd(s, p) - UNMASKED_LAST
  }

  ghost predicate KeyStarred(s: string, k: int) {
    exists p :: KeyCovers(s, p, k)
  }

  // s[from..] starts where no earlier match is still running.
  ghost predicate Boundary(s: string, from: nat) {
    from <= |s| && forall q :: 0 <= q < from && KeyAt(s, q) ==> RunEnd(s, q) <= from
  }

  lemma KeyStarredFrom(s: string, from: nat, k: int)
    requires Boundary(s, from) && from <= k < |s|
    ensures var p := FindKey(s, from);
            p == -1 || k < p ==> !KeyStarred(s, k)
    ensures var p := FindKey(s, from);
            p != -1 && p <= k < RunEnd(s, p) ==>
              (KeyStarred(s, k) <==> p + UNMASKED_FIRST <= k < RunEnd(s, p) - UNMASKED_LAST)
  {
    var p := FindKey(s, from);
    assert p != -1 ==> FirstKey(s, p);
    assert p != -1 && p + UNMASKED_FIRST <= k < RunEnd(s, p) - UNMASKED_LAST ==> KeyCovers(s, p, k);
    forall q | KeyCovers(s, q, k)
      ensures p != -1 && p <= k && (k < RunEnd(s, p) ==> q == p)
    {
      assert from <= q;
    }
  }

  ghost function KeyMasked(s: string, k: nat): char
    requires k < |s|
  {
    if KeyStarred(s, k) then '*' else s[k]
  }

  lemma BoundaryAfter(s: string, from: nat)
    requires Boundary(s, from) && FindKey(s, from) != -1
    ensures Boundary(s, RunEnd(s, FindKey(s, from)))
  {
  }

  lemma {:induction false} MaskKeysFromAt(s: string, from: nat, k: nat)
    requires Boundary(s, from) && from <= k < |s|
    ensures MaskKeysFrom(s, from)[k - from] == KeyMasked(s, k)
    decreases |s| - from
  {
    var p := FindKey(s, from);
    KeyStarredFrom(s, from, k);
    if p != -1 {
      var e := RunEnd(s, p);
      MaskOneKey(s, from, p, e, MaskKeysFrom(s, e), k);
      if k >= e {
        BoundaryAfter(s, from);
        MaskKeysFromAt(s, e, k);
      }
    }
  }

  lemma MaskOneKey(s: string, from: nat, p: nat, e: nat, tail: string, k: nat)
    requires from <= p && p + 20 <= e <= |s| && |tail| == |s| - e && from <= k < |s|
    ensures var r := s[from..p] + PartialMask(s[p..e], UNMASKED_FIRST, UNMASKED_LAST) + tail;
            && |r| == |s| - from
            && r[k - from] == if k >= e then tail[k - e]
                              else if p + UNMASKED_FIRST <= k < e - UNMASKED_LAST then '*' else s[k]
  {
  }

  // Pass one keeps the length and stars exactly the covered positions: in every
  // [A-Z0-9] run, one stretch that starts four past its first usable prefix and
  // stops four short of its end.
  lemma MaskKeysAt(s: string)
    ensures |MaskKeys(s)| == |s|
    ensures forall k :: 0 <= k < |s| ==> MaskKeys(s)[k] == KeyMasked(s, k)
  {
    forall k | 0 <= k < |s|
      ensures MaskKeys(s)[k] == KeyMasked(s, k)
    {
      MaskKeysFromAt(s, 0, k);
    }
  }

  // At most one rewrite in a run.
  lemma OneKeyPerRun(s: string, p: int, q: int)
    requires FirstKey(s, p) && FirstKey(s, q) && RunEnd(s, p) == RunEnd(s, q)
    ensures p == q
  {
  }

  // ------------------------------------------------ the composed masker

  lemma MaskedAt(s: string)
    ensures |Masked(s)| == |s|
    ensures forall k :: 0 <= k < |s| ==>
              Masked(s)[k] == if KeyStarred(s, k) || SecretStarred(MaskKeys(s), k) then '*' else s[k]
  {
    MaskKeysAt(s);
  }

  // A text with the covered positions of s starred, and nothing else but stars
  // changed, has no match: the fifth character of every candidate is covered.
  lemma NoKeyLeft(s: string, u: string, i: nat, j: nat)
    requires |u| == |s|
    requires forall k :: 0 <= k < |s| ==> u[k] == s[k] || u[k] == '*'
    requires forall k :: 0 <= k < |s| && KeyStarred(s, k) ==> u[k] == '*'
    ensures !MatchesAt(UNIQUE_ID_REGEX, u, i, j)
  {
    MatchesAtIff(u, i, j);
    if j <= |u| && IsPrefixAt(u, i) && i + 20 <= j <= RunEnd(u, i) {
      assert u[i..i + 4] == s[i..i + 4];
      assert RunEnd(s, i) >= j;
      FifthStarred(s, i);
    }
  }

  lemma FifthStarred(s: string, i: nat)
    requires i < |s| && KeyAt(s, i)
    ensures KeyStarred(s, i + 4)
  {
    var p := FirstKeyOf(s, i);
    assert KeyCovers(s, p, i + 4);
  }

  // Every usable prefix has a first one in its run.
  lemma {:induction false} FirstKeyOf(s: string, i: nat) returns (p: nat)
    requires i < |s| && KeyAt(s, i)
    ensures p <= i && FirstKey(s, p) && RunEnd(s, p) == RunEnd(s, i)
  {
    if q :| 0 <= q < i && KeyAt(s, q) && RunEnd(s, q) > i {
      p := FirstKeyOf(s, q);
    } else {
      p := i;
    }
  }

  // A run of the second pass's output is an untouched run of its input, or one of
  // the two visible ends of a masked one.
  lemma RunOfMasked(t: string, a: int, b: int)
    requires IsRun(MaskSecrets(t), a, b)
    ensures b - a != SECRET_KEY_LEN
    ensures b - a == 4 || IsRun(t, a, b)
  {
    var u := MaskSecrets(t);
    forall k | a <= k < b
      ensures !SecretStarred(t, k) && IsBase64(t[k])
    {
      assert IsBase64(u[k]);
    }
    if a > 0 && IsBase64(t[a - 1]) {
      RightEnd(t, a, b);
    } else if b < |t| && IsBase64(t[b]) {
      LeftEnd(t, a, b);
    } else if b - a == SECRET_KEY_LEN {
      RunStars(t, a, b, a + 4);
    }
  }

  lemma RightEnd(t: string, a: int, b: int)
    requires IsRun(MaskSecrets(t), a, b) && a > 0 && IsBase64(t[a - 1])
    ensures b - a == 4
  {
    var c :| IsSecretAt(t, c) && c + 4 <= a - 1 < c + 36;
    forall k | c <= k < c + 40
      ensures IsBase64(MaskSecrets(t)[k]) <==> k < c + 4 || c + 36 <= k
    {
      RunStars(t, c, c + 40, k);
    }
    var u := MaskSecrets(t);
    assert IsBase64(u[a]);
    assert c + 40 < |t| ==> !IsBase64(u[c + 40]);
    assert b < |t| ==> !IsBase64(u[b]);
  }

  lemma LeftEnd(t: string, a: int, b: int)
    requires IsRun(MaskSecrets(t), a, b) && b < |t| && IsBase64(t[b])
    ensures b - a == 4
  {
    var c :| IsSecretAt(t, c) && c + 4 <= b < c + 36;
    forall k | c <= k < c + 40
      ensures IsBase64(MaskSecrets(t)[k]) <==> k < c + 4 || c + 36 <= k
    {
      RunStars(t, c, c + 40, k);
    }
    var u := MaskSecrets(t);
    assert IsBase64(u[b - 1]);
    assert c > 0 ==> !IsBase64(u[c - 1]);
    assert a > 0 ==> !IsBase64(u[a - 1]);
  }

  // Nothing left to mask: no access-key match and no 40-character run.
  lemma NothingLeft(s: string)
    ensures forall i, j :: !MatchesAt(UNIQUE_ID_REGEX, Masked(s), i, j)
    ensures forall a :: !IsSecretAt(Masked(s), a)
  {
    MaskedAt(s);
    forall i, j ensures !MatchesAt(UNIQUE_ID_REGEX, Masked(s), i, j) {
      if 0 <= i <= j { NoKeyLeft(s, Masked(s), i, j); }
    }
    forall a ensures !IsSecretAt(Masked(s), a) {
      if IsSecretAt(Masked(s), a) { RunOfMasked(MaskKeys(s), a, a + SECRET_KEY_LEN); }
    }
  }

  lemma Idempotent(s: string)
    ensures Masked(Masked(s)) == Masked(s)
  {
    var u := Masked(s);
    NothingLeft(s);
    FindKeyIsLeftmostGreedy(u, 0);
    assert MaskKeys(u) == u;
    assert forall k :: !SecretStarred(u, k);
  }

  // ----------------------------------- what two inputs logged alike may differ in

  // s' may differ from s only where pass one stars s, and only within [A-Z0-9].
  ghost predicate DifferInKeys(s: string, s': string) {
    && |s| == |s'|
    && forall k :: 0 <= k < |s| ==> s'[k] == s[k] || (KeyStarred(s, k) && In(s'[k], UpperDigit))
  }

  // s' may differ from s only where pass two stars s, and only within base64.
  ghost predicate DifferInSecrets(s: string, s': string) {
    && |s| == |s'|
    && forall k :: 0 <= k < |s| ==> s'[k] == s[k] || (SecretStarred(s, k) && IsBase64(s'[k]))
  }

  lemma SameRunEnds(s: string, s': string, i: nat)
    requires DifferInKeys(s, s') && i <= |s|
    ensures RunEnd(s, i) == RunEnd(s', i)
  {
    assert forall k :: 0 <= k < |s| ==> (In(s[k], UpperDigit) <==> In(s'[k], UpperDigit));
  }

  // Nothing below four past the first prefix of a run changes.
  lemma PrefixUntouched(s: string, s': string, p: int, q: nat)
    requires DifferInKeys(s, s') && FirstKey(s, p)
    requires q <= p < RunEnd(s, q) && q + 4 <= RunEnd(s, q)
    ensures IsPrefixAt(s', q) <==> IsPrefixAt(s, q)
  {
    forall k | q <= k < q + 4
      ensures s'[k] == s[k]
    {
    }
    assert s'[q..q + 4] == s[q..q + 4];
  }

  lemma FirstKeyKept(s: string, s': string, p: int)
    requires DifferInKeys(s, s') && FirstKey(s, p)
    ensures FirstKey(s', p)
  {
    SameRunEnds(s, s', p);
    PrefixUntouched(s, s', p, p);
    forall q | 0 <= q < p && KeyAt(s', q)
      ensures RunEnd(s', q) <= p
    {
      SameRunEnds(s, s', q);
      if RunEnd(s', q) > p {
        PrefixUntouched(s, s', p, q);
      }
    }
  }

  lemma FirstKeyNotNew(s: string, s': string, p: int)
    requires DifferInKeys(s, s') && FirstKey(s', p)
    ensures FirstKey(s, p)
  {
    SameRunEnds(s, s', p);
    forall k | p <= k < p + 4
      ensures s'[k] == s[k]
    {
      if KeyStarred(s, k) {
        var r :| KeyCovers(s, r, k);
        FirstKeyKept(s, s', r);
      }
    }
    assert s'[p..p + 4] == s[p..p + 4];
    var r := FirstKeyOf(s, p);
    FirstKeyKept(s, s', r);
    SameRunEnds(s, s', r);
    OneKeyPerRun(s', p, r);
  }

  lemma SameKeysStarred(s: string, s': string, k: nat)
    requires DifferInKeys(s, s')
    ensures KeyStarred(s, k) <==> KeyStarred(s', k)
  {
    if p :| KeyCovers(s, p, k) {
      FirstKeyKept(s, s', p);
      SameRunEnds(s, s', p);
      assert KeyCovers(s', p, k);
    }
    if p :| KeyCovers(s', p, k) {
      FirstKeyNotNew(s, s', p);
      SameRunEnds(s, s', p);
      assert KeyCovers(s, p, k);
    }
  }

  // Pass one logs alike any two inputs that differ only in what it hides.
  lemma KeysHidden(s: string, s': string)
    requires DifferInKeys(s, s')
    ensures MaskKeys(s) == MaskKeys(s')
  {
    MaskKeysAt(s);
    MaskKeysAt(s');
    forall k | 0 <= k < |s|
      ensures MaskKeys(s)[k] == MaskKeys(s')[k]
    {
      SameKeysStarred(s, s', k);
    }
  }

  // So does pass two.
  lemma SecretsHidden(s: string, s': string)
    requires DifferInSecrets(s, s')
    ensures MaskSecrets(s) == MaskSecrets(s')
  {
    assert forall k :: 0 <= k < |s| ==> (IsBase64(s[k]) <==> IsBase64(s'[k]));
    forall k | 0 <= k < |s|
      ensures SecretStarred(s, k) <==> SecretStarred(s', k)
    {
      if a :| IsSecretAt(s, a) && a + 4 <= k < a + 36 { assert IsSecretAt(s', a); }
      if a :| IsSecretAt(s', a) && a + 4 <= k < a + 36 { assert IsSecretAt(s, a); }
    }
  }

  // --------------------------- when a 40-character run of the input is masked

  // Upper-case letters and digits are base64: a stretch of them that meets a base64
  // run lies inside it.
  lemma KeyInsideRun(s: string, a: int, b: int, p: int, k: int)
    requires IsRun(s, a, b) && a <= k < b && 0 <= p <= k < RunEnd(s, p)
    ensures a <= p && RunEnd(s, p) <= b
  {
    assert forall i :: p <= i < RunEnd(s, p) ==> IsBase64(s[i]);
    assert a > 0 ==> !IsBase64(s[a - 1]);
    assert b < |s| ==> !IsBase64(s[b]);
  }

  lemma RunIsKey(s: string, a: int)
    requires IsSecretAt(s, a) && KeyAt(s, a) && RunEnd(s, a) == a + 40
    ensures forall k :: a + 4 <= k < a + 36 ==> KeyStarred(s, k)
  {
    forall q | 0 <= q < a && KeyAt(s, q)
      ensures RunEnd(s, q) <= a
    {
      if RunEnd(s, q) > a { KeyInsideRun(s, a, a + 40, q, a); }
    }
    forall k | a + 4 <= k < a + 36
      ensures KeyStarred(s, k)
    {
      assert KeyCovers(s, a, k);
    }
  }

  lemma RunHasNoKey(s: string, a: int)
    requires IsSecretAt(s, a) && forall p :: a <= p < a + 40 ==> !KeyAt(s, p)
    ensures IsSecretAt(MaskKeys(s), a)
  {
    MaskKeysAt(s);
    forall k | a <= k < a + 40
      ensures MaskKeys(s)[k] == s[k]
    {
      if p :| KeyCovers(s, p, k) { KeyInsideRun(s, a, a + 40, p, k); }
    }
  }

  lemma WholeRunMasked(s: string, a: int)
    requires IsSecretAt(s, a)
    requires (forall p :: a <= p < a + 40 ==> !KeyAt(s, p)) || (KeyAt(s, a) && RunEnd(s, a) == a + 40)
    ensures forall k :: a + 4 <= k < a + 36 ==> Masked(s)[k] == '*'
  {
    MaskedAt(s);
    if KeyAt(s, a) {
      RunIsKey(s, a);
    } else {
      RunHasNoKey(s, a);
      forall k | a + 4 <= k < a + 36
        ensures SecretStarred(MaskKeys(s), k)
      {
        RunStars(MaskKeys(s), a, a + 40, k);
      }
    }
  }

  // Once pass one has starred a position inside a 40-character run, what is left of
  // the run on either side is too short for pass two.
  lemma CutRunNotSecret(s: string, a: int, m: int, k: int)
    requires IsSecretAt(s, a) && a <= m < a + 40 && KeyStarred(s, m)
    requires a <= k < a + 40 && !KeyStarred(s, k)
    ensures Masked(s)[k] != '*'
  {
    MaskKeysAt(s);
    MaskedAt(s);
    var t := MaskKeys(s);
    assert !IsBase64(t[m]);
    assert a > 0 ==> !IsBase64(t[a - 1]);
    assert a + 40 < |t| ==> !IsBase64(t[a + 40]);
    forall c | IsSecretAt(t, c)
      ensures !(c <= k < c + 40)
    {
    }
  }

  // The first position past the visible head is uncovered when the key starts
  // late, the last one before the visible tail when the key ends early.
  lemma UncoveredPosition(s: string, a: int, f: int, k: int)
    requires IsSecretAt(s, a) && a <= f < a + 40 && FirstKey(s, f) && RunEnd(s, f) <= a + 40
    requires if f > a then k == a + 4 else k == a + 35 && RunEnd(s, f) < a + 40
    ensures !KeyStarred(s, k)
  {
    forall r | 0 <= r <= k && k < RunEnd(s, r)
      ensures a <= r && RunEnd(s, r) <= a + 40
    {
      KeyInsideRun(s, a, a + 40, r, k);
    }
  }

  // Pass two finds a 40-character run at a exactly when the input has 40 base64
  // characters there that pass one leaves, and on either side the end of the text,
  // another character, or one that pass one stars.
  lemma SecretLeftIff(s: string, a: nat)
    requires a + SECRET_KEY_LEN <= |s|
    ensures IsSecretAt(MaskKeys(s), a) <==>
            && (forall k :: a <= k < a + SECRET_KEY_LEN ==> IsBase64(s[k]) && !KeyStarred(s, k))
            && (a == 0 || !IsBase64(s[a - 1]) || KeyStarred(s, a - 1))
            && (a + SECRET_KEY_LEN == |s| || !IsBase64(s[a + SECRET_KEY_LEN]) || KeyStarred(s, a + SECRET_KEY_LEN))
  {
    MaskKeysAt(s);
    var t := MaskKeys(s);
    assert forall k :: 0 <= k < |s| ==> (IsBase64(t[k]) <==> IsBase64(s[k]) && !KeyStarred(s, k));
  }

  lemma CutRunShows(s: string, a: int, p: int)
    requires IsSecretAt(s, a) && a <= p < a + 40 && KeyAt(s, p)
    requires !(KeyAt(s, a) && RunEnd(s, a) == a + 40)
    ensures exists k :: a + 4 <= k < a + 36 && Masked(s)[k] != '*'
  {
    var f := FirstKeyOf(s, p);
    KeyInsideRun(s, a, a + 40, f, p);
    assert KeyCovers(s, f, f + 4);
    var k := if f > a then a + 4 else a + 35;
    UncoveredPosition(s, a, f, k);
    CutRunNotSecret(s, a, f + 4, k);
  }

  // A 40-character run of the input ends up masked exactly when no access-key
  // match starts inside it, or one spans the whole of it.
  lemma SecretMaskedIff(s: string, a: int)
    requires IsSecretAt(s, a)
    ensures (forall k :: a + 4 <= k < a + 36 ==> Masked(s)[k] == '*')
       <==> (forall p :: a <= p < a + 40 ==> !KeyAt(s, p)) || (KeyAt(s, a) && RunEnd(s, a) == a + 40)
  {
    MaskedAt(s);
    if (forall p :: a <= p < a + 40 ==> !KeyAt(s, p)) || (KeyAt(s, a) && RunEnd(s, a) == a + 40) {
      WholeRunMasked(s, a);
    } else {
      var p :| a <= p < a + 40 && KeyAt(s, p);
      CutRunShows(s, a, p);
    }
  }

  // An input whose only 40-character run is left unmasked.
  lemma SecretCanStayVisible()
    ensures exists s :: IsSecretAt(s, 0) && exists k :: 4 <= k < 36 && Masked(s)[k] != '*'
  {
    var s := "AKIA" + seq(16, _ => 'X') + seq(20, _ => 'x');
    assert s[0..4] == "AKIA" == LITERAL_PREFIXES[5];
    assert forall k :: 0 <= k < 20 ==> In(s[k], UpperDigit);
    assert !In(s[20], UpperDigit);
    CutRunShows(s, 0, 0);
    assert IsSecretAt(s, 0);
  }
}
