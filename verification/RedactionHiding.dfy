/**
 What the two masking passes of logging/aws.go hide: exactly when a text that
 differs from another only in what is masked there is logged like it.
 */
module RedactionHiding {
  import opened Regex
  import opened Redaction
  import opened RedactionProperties
  import opened RedactionLocality

  ghost predicate Starred(s: string, k: int) {
    KeyStarred(s, k) || SecretStarred(MaskKeys(s), k)
  }

  // s' may differ from s only where s is masked: within [A-Z0-9] in a key, within
  // base64 in a secret.
  ghost predicate DifferWhereMasked(s: string, s': string) {
    && |s| == |s'|
    && forall k :: 0 <= k < |s| ==>
         || s'[k] == s[k]
         || (KeyStarred(s, k) && In(s'[k], UpperDigit))
         || (SecretStarred(MaskKeys(s), k) && IsBase64(s'[k]))
  }

  // A key of s' is all of the secret that pass two finds in s at a.
  ghost predicate Spanned(s: string, s': string, a: int) {
    IsSecretAt(MaskKeys(s), a) && FirstKey(s', a) && RunEnd(s', a) == a + SECRET_KEY_LEN
  }

  // The key of s' at p meets the masked middle of the secret of s at a.
  ghost predicate Meets(s: string, s': string, p: int, a: int) {
    && IsSecretAt(MaskKeys(s), a)
    && FirstKey(s', p)
    && p < a + SECRET_KEY_LEN - UNMASKED_LAST
    && a + UNMASKED_FIRST < RunEnd(s', p)
  }

  // Keys of s' that meet the masked middle of a secret of s are all of it.
  ghost predicate KeysSpan(s: string, s': string) {
    forall p, a :: Meets(s, s', p, a) ==> p == a && Spanned(s, s', a)
  }

  lemma SecretShown(s: string, a: int, k: int)
    requires IsSecretAt(MaskKeys(s), a) && a <= k < a + SECRET_KEY_LEN
    ensures !KeyStarred(s, k) && IsBase64(s[k])
    ensures SecretStarred(MaskKeys(s), k) <==> a + UNMASKED_FIRST <= k < a + SECRET_KEY_LEN - UNMASKED_LAST
  {
    MaskKeysAt(s);
    assert IsBase64(MaskKeys(s)[k]);
    RunStars(MaskKeys(s), a, a + SECRET_KEY_LEN, k);
  }

  lemma SameAlphabet(s: string, s': string, k: nat)
    requires DifferWhereMasked(s, s') && k < |s|
    ensures IsBase64(s[k]) <==> IsBase64(s'[k])
  {
    if a :| IsSecretAt(MaskKeys(s), a) && a + 4 <= k < a + 36 { SecretShown(s, a, k); }
  }

  lemma AlikeIsSameStars(s: string, s': string)
    requires DifferWhereMasked(s, s')
    ensures Masked(s) == Masked(s') <==> forall k :: 0 <= k < |s| ==> (Starred(s, k) <==> Starred(s', k))
  {
    MaskedAt(s);
    MaskedAt(s');
    forall k | 0 <= k < |s|
      ensures Masked(s)[k] == Masked(s')[k] <==> (Starred(s, k) <==> Starred(s', k))
    {
      if Starred(s, k) { StarredIsBase64(s, k); }
      if Starred(s', k) { StarredIsBase64(s', k); }
    }
  }

  // ------------------------------------------- logged alike, keys span secrets

  // The middle of a masked secret is out of the way of every key.
  lemma KeysAndSecretsApart(s: string, p: int, a: int)
    requires FirstKey(s, p) && IsSecretAt(MaskKeys(s), a)
    ensures RunEnd(s, p) <= a + UNMASKED_FIRST || a + SECRET_KEY_LEN - UNMASKED_LAST <= p
  {
    var k := if a < p + 4 then p + 4 else a;
    if a + 4 < RunEnd(s, p) && p < a + 36 {
      assert KeyCovers(s, p, k);
      SecretShown(s, a, k);
    }
  }

  // The four characters at either end of a key stay visible: what pass one stars
  // between them keeps every 40-character run of pass two away.
  lemma KeyEndsShow(s: string, p: int, k: int)
    requires FirstKey(s, p) && p <= k < RunEnd(s, p)
    ensures KeyStarred(s, k) <==> p + UNMASKED_FIRST <= k < RunEnd(s, p) - UNMASKED_LAST
    ensures !SecretStarred(MaskKeys(s), k)
  {
    if q :| KeyCovers(s, q, k) { OneKeyPerRun(s, p, q); }
    if p + 4 <= k < RunEnd(s, p) - 4 { assert KeyCovers(s, p, k); }
    if a :| IsSecretAt(MaskKeys(s), a) && a + 4 <= k < a + 36 { KeysAndSecretsApart(s, p, a); }
  }

  lemma StarsMeet(s: string, s': string, p: int, a: int, k: int)
    requires Meets(s, s', p, a) && p <= k < RunEnd(s', p) && a <= k < a + SECRET_KEY_LEN
    requires Starred(s, k) <==> Starred(s', k)
    ensures a + 4 <= k < a + 36 <==> p + 4 <= k < RunEnd(s', p) - 4
  {
    SecretShown(s, a, k);
    KeyEndsShow(s', p, k);
  }

  lemma AlikeSpans(s: string, s': string, p: int, a: int)
    requires |s| == |s'| && forall k :: 0 <= k < |s| ==> (Starred(s, k) <==> Starred(s', k))
    requires Meets(s, s', p, a)
    ensures p == a && Spanned(s, s', a)
  {
    var e := RunEnd(s', p);
    if p < a {
      StarsMeet(s, s', p, a, if p + 4 < a then a else p + 4);
    } else if p > a {
      StarsMeet(s, s', p, a, if p + 3 < a + 36 then p + 3 else p);
    } else if e != a + 40 {
      StarsMeet(s, s', p, a, if e < a + 40 then e - 4 else a + 36);
    }
  }

  // ------------------------------------------- keys span secrets, logged alike

  // A key of s is still one, as far as its own characters go.
  lemma KeyMatchStays(s: string, s': string, p: int)
    requires DifferWhereMasked(s, s') && FirstKey(s, p)
    ensures KeyAt(s', p) && RunEnd(s', p) >= RunEnd(s, p)
  {
    forall k | p <= k < RunEnd(s, p)
      ensures In(s'[k], UpperDigit) && (k < p + 4 ==> s'[k] == s[k])
    {
      KeyEndsShow(s, p, k);
    }
    KeyCopied(s, s', p);
  }

  lemma KeyCopied(s: string, t: string, p: nat)
    requires |s| == |t| && p < |s| && KeyAt(s, p)
    requires forall k :: p <= k < RunEnd(s, p) ==> In(t[k], UpperDigit) && (k < p + 4 ==> t[k] == s[k])
    ensures KeyAt(t, p) && RunEnd(t, p) >= RunEnd(s, p)
  {
    assert t[p..p + 4] == s[p..p + 4];
  }

  lemma KeyEndStays(s: string, s': string, p: int)
    requires DifferWhereMasked(s, s') && KeysSpan(s, s') && FirstKey(s, p)
    ensures KeyAt(s', p) && RunEnd(s', p) == RunEnd(s, p)
  {
    KeyMatchStays(s, s', p);
    var e := RunEnd(s, p);
    if RunEnd(s', p) > e {
      assert SecretStarred(MaskKeys(s), e);
      var a :| IsSecretAt(MaskKeys(s), a) && a + 4 <= e < a + 36;
      var f := FirstKeyOf(s', p);
      assert Meets(s, s', f, a);
      KeysAndSecretsApart(s, p, a);
    }
  }

  // No key of s' reaches into a run of s that has its own key further on.
  lemma NoEarlierKey(s: string, s': string, p: int, f: int)
    requires DifferWhereMasked(s, s') && KeysSpan(s, s') && FirstKey(s, p) && FirstKey(s', f)
    ensures p <= f || RunEnd(s', f) <= p
  {
    var e := RunEnd(s, p);
    if f < p < RunEnd(s', f) {
      KeyEndStays(s, s', p);
      forall k | f <= k < p
        ensures !SecretStarred(MaskKeys(s), k) && In(s[k], UpperDigit)
      {
        if a :| IsSecretAt(MaskKeys(s), a) && a + 4 <= k < a + 36 {
          assert Meets(s, s', f, a);
          KeysAndSecretsApart(s, p, a);
        }
      }
      forall k | f <= k < RunEnd(s', f)
        ensures In(s[k], UpperDigit) && (k < f + 4 ==> s'[k] == s[k])
      {
        if k >= p { KeyEndsShow(s, p, k); }
        if q :| KeyCovers(s, q, k) { OneKeyPerRun(s, p, q); }
      }
      KeyCopied(s', s, f);
    }
  }

  lemma KeyStays(s: string, s': string, p: int)
    requires DifferWhereMasked(s, s') && KeysSpan(s, s') && FirstKey(s, p)
    ensures FirstKey(s', p) && RunEnd(s', p) == RunEnd(s, p)
  {
    KeyEndStays(s, s', p);
    var f := FirstKeyOf(s', p);
    if f < p { NoEarlierKey(s, s', p, f); }
  }

  lemma KeyNotNew(s: string, s': string, p: int)
    requires DifferWhereMasked(s, s') && KeysSpan(s, s') && FirstKey(s', p)
    ensures Spanned(s, s', p) || (FirstKey(s, p) && RunEnd(s', p) == RunEnd(s, p))
  {
    if k :| p <= k < RunEnd(s', p) && SecretStarred(MaskKeys(s), k) {
      var a :| IsSecretAt(MaskKeys(s), a) && a + 4 <= k < a + 36;
      assert Meets(s, s', p, a);
    } else {
      forall k | p <= k < RunEnd(s', p)
        ensures In(s[k], UpperDigit) && (k < p + 4 ==> s[k] == s'[k])
      {
        if q :| KeyCovers(s, q, k) { KeyStays(s, s', q); }
      }
      KeyCopied(s', s, p);
      var f := FirstKeyOf(s, p);
      KeyStays(s, s', f);
    }
  }

  // Pass one stars what it starred, and the middles of the spanned secrets.
  lemma KeysStarredIff(s: string, s': string, k: int)
    requires DifferWhereMasked(s, s') && KeysSpan(s, s')
    ensures KeyStarred(s', k) <==>
            KeyStarred(s, k) || exists a :: Spanned(s, s', a) && a + UNMASKED_FIRST <= k < a + SECRET_KEY_LEN - UNMASKED_LAST
  {
    if p :| KeyCovers(s, p, k) {
      KeyStays(s, s', p);
      assert KeyCovers(s', p, k);
    }
    if p :| KeyCovers(s', p, k) {
      KeyNotNew(s, s', p);
      assert Spanned(s, s', p) || KeyCovers(s, p, k);
    }
    if a :| Spanned(s, s', a) && a + 4 <= k < a + 36 { assert KeyCovers(s', a, k); }
  }

  lemma NotBase64Stays(s: string, s': string, k: nat)
    requires DifferWhereMasked(s, s') && KeysSpan(s, s') && k < |s| && !IsBase64(MaskKeys(s)[k])
    ensures !IsBase64(MaskKeys(s')[k])
  {
    MaskKeysAt(s);
    MaskKeysAt(s');
    SameAlphabet(s, s', k);
    KeysStarredIff(s, s', k);
  }

  lemma SecretStays(s: string, s': string, a: int)
    requires DifferWhereMasked(s, s') && KeysSpan(s, s') && IsSecretAt(MaskKeys(s), a) && !Spanned(s, s', a)
    ensures IsSecretAt(MaskKeys(s'), a)
  {
    var t := MaskKeys(s);
    MaskKeysAt(s');
    forall k | a <= k < a + 40
      ensures IsBase64(MaskKeys(s')[k])
    {
      SecretShown(s, a, k);
      SameAlphabet(s, s', k);
      KeysStarredIff(s, s', k);
      if c :| Spanned(s, s', c) && c + 4 <= k < c + 36 { RunsDisjoint(t, a, a + 40, c, c + 40); }
    }
    if a > 0 { NotBase64Stays(s, s', a - 1); }
    if a + 40 < |s| { NotBase64Stays(s, s', a + 40); }
  }

  // What is next to a secret of s' is no part of a spanned one.
  lemma NoSpanBeside(s: string, s': string, c: int, a: int, k: int)
    requires DifferWhereMasked(s, s') && KeysSpan(s, s') && IsSecretAt(MaskKeys(s'), c)
    requires Spanned(s, s', a) && a + UNMASKED_FIRST <= k < a + SECRET_KEY_LEN - UNMASKED_LAST
    ensures k < c - 1 || c + SECRET_KEY_LEN < k
  {
    if c - 1 <= k <= c + 40 {
      var j := if k < c then (if c < a + 36 then c else a + 40)
               else if k < c + 40 then k
               else if a + 4 <= c + 39 then c + 39 else a - 1;
      if a + 4 <= j < a + 36 {
        SpanStarred(s, s', a, j);
      } else {
        NotBase64Stays(s, s', j);
      }
    }
  }

  lemma SpanStarred(s: string, s': string, a: int, k: int)
    requires Spanned(s, s', a) && a + UNMASKED_FIRST <= k < a + SECRET_KEY_LEN - UNMASKED_LAST
    ensures k < |s'| && MaskKeys(s')[k] == '*'
  {
    assert KeyCovers(s', a, k);
    MaskKeysAt(s');
  }

  lemma SecretNotNew(s: string, s': string, c: int)
    requires DifferWhereMasked(s, s') && KeysSpan(s, s') && IsSecretAt(MaskKeys(s'), c)
    ensures IsSecretAt(MaskKeys(s), c)
  {
    MaskKeysAt(s);
    MaskKeysAt(s');
    forall k | 0 <= k < |s| && c - 1 <= k <= c + 40
      ensures IsBase64(MaskKeys(s)[k]) <==> IsBase64(MaskKeys(s')[k])
    {
      SameAlphabet(s, s', k);
      KeysStarredIff(s, s', k);
      if a :| Spanned(s, s', a) && a + 4 <= k < a + 36 { NoSpanBeside(s, s', c, a, k); }
    }
  }

  lemma SpansStarAlike(s: string, s': string, k: nat)
    requires DifferWhereMasked(s, s') && KeysSpan(s, s') && k < |s|
    ensures Starred(s, k) <==> Starred(s', k)
  {
    KeysStarredIff(s, s', k);
    if a :| IsSecretAt(MaskKeys(s), a) && a + 4 <= k < a + 36 {
      if !Spanned(s, s', a) { SecretStays(s, s', a); }
    }
    if c :| IsSecretAt(MaskKeys(s'), c) && c + 4 <= k < c + 36 { SecretNotNew(s, s', c); }
  }

  // A text that differs from s only where s is masked is logged like s exactly
  // when none of its keys meets the middle of a secret of s but spans it.
  lemma MaskedHidesIff(s: string, s': string)
    requires DifferWhereMasked(s, s')
    ensures Masked(s) == Masked(s') <==> KeysSpan(s, s')
  {
    AlikeIsSameStars(s, s');
    if KeysSpan(s, s') {
      forall k | 0 <= k < |s|
        ensures Starred(s, k) <==> Starred(s', k)
      {
        SpansStarAlike(s, s', k);
      }
    }
    if Masked(s) == Masked(s') {
      forall p, a | Meets(s, s', p, a)
        ensures p == a && Spanned(s, s', a)
      {
        AlikeSpans(s, s', p, a);
      }
    }
  }

  // A replacement inside a masked secret that shows: it brings a key with it.
  lemma ReplacementCanShow()
    ensures exists s, s' :: DifferWhereMasked(s, s') && Masked(s) != Masked(s')
  {
    var s := seq(40, _ => 'x');
    var s' := seq(4, _ => 'x') + "AKIA" + seq(16, _ => 'X') + seq(16, _ => 'x');
    NoKeys(s);
    assert IsSecretAt(s, 0);
    assert forall k :: 4 <= k < 36 ==> SecretStarred(s, k);
    assert DifferWhereMasked(s, s');
    KeyInMiddle(s');
    assert Meets(s, s', 4, 0);
    MaskedHidesIff(s, s');
  }

  lemma NoKeys(s: string)
    requires forall k :: 0 <= k < |s| ==> !In(s[k], UpperDigit)
    ensures MaskKeys(s) == s
  {
    assert FindKey(s, 0) == -1;
  }

  lemma KeyInMiddle(s: string)
    requires |s| == 40 && s[4..8] == "AKIA"
    requires forall k :: 0 <= k < 40 ==> (In(s[k], UpperDigit) <==> 4 <= k < 24)
    ensures FirstKey(s, 4) && RunEnd(s, 4) == 24
  {
    assert "AKIA" == LITERAL_PREFIXES[5];
    var e := RunEnd(s, 4);
    assert !In(s[24], UpperDigit);
    assert e < 40 ==> !In(s[e], UpperDigit);
    assert forall q :: 0 <= q < 4 ==> RunEnd(s, q) == q;
  }
}
