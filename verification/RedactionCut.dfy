/**
 What cutting a text before it is masked shows (logging/aws.go): exactly when the
 start of a text, masked by itself, shows a character that is masked in the whole.
 */
module RedactionCut {
  import opened Regex
  import opened Redaction
  import opened RedactionProperties
  import opened RedactionLocality
  import opened RedactionHiding

  // Position k is masked in y but not in its first n characters.
  ghost predicate ShownByCut(y: string, n: nat, k: int)
    requires n <= |y|
  {
    0 <= k < n && Starred(y, k) && !Starred(y[..n], k)
  }

  // An access key of y goes on past n and its masked part starts before.
  predicate KeyCrosses(y: string, n: nat, p: nat) {
    p < |y| && KeyAt(y, p) && p + UNMASKED_FIRST < n < RunEnd(y, p)
  }

  // So does a 40-character run that pass two masks.
  predicate SecretCrosses(y: string, n: nat, a: int) {
    IsSecretAt(MaskKeys(y), a) && a + UNMASKED_FIRST < n < a + SECRET_KEY_LEN
  }

  ghost predicate SomethingCrosses(y: string, n: nat) {
    (exists p: nat :: KeyCrosses(y, n, p)) || exists a :: SecretCrosses(y, n, a)
  }

  // ------------------------------------------------------- keys of the cut text

  lemma RunEndCut(y: string, n: nat, i: nat)
    requires i <= n <= |y|
    ensures RunEnd(y[..n], i) == if RunEnd(y, i) < n then RunEnd(y, i) else n
  {
    var x, e := y[..n], RunEnd(y[..n], i);
    assert forall k :: 0 <= k < n ==> x[k] == y[k];
    assert e < n ==> !In(y[e], UpperDigit) by { assert e < n ==> x[e] == y[e]; }
  }

  lemma KeyAtCut(y: string, n: nat, p: nat)
    requires p < n <= |y|
    ensures KeyAt(y[..n], p) <==> KeyAt(y, p) && p + 20 <= n
  {
    RunEndCut(y, n, p);
    if p + 4 <= n { assert y[..n][p..p + 4] == y[p..p + 4]; }
  }

  lemma FirstKeyCut(y: string, n: nat, p: nat)
    requires p < n <= |y|
    ensures FirstKey(y, p) && p + 20 <= n ==> FirstKey(y[..n], p)
    ensures FirstKey(y[..n], p) ==> FirstKey(y, p)
  {
    KeyAtCut(y, n, p);
    forall q: nat | q < p
      ensures KeyAt(y[..n], q) <==> KeyAt(y, q) && q + 20 <= n
      ensures RunEnd(y[..n], q) == if RunEnd(y, q) < n then RunEnd(y, q) else n
    {
      KeyAtCut(y, n, q);
      RunEndCut(y, n, q);
    }
  }

  // Pass one stars in the cut text only what it stars in the whole, and all of
  // that unless the key goes on.
  lemma KeyStarredCut(y: string, n: nat, k: nat)
    requires k < n <= |y|
    ensures KeyStarred(y[..n], k) ==> KeyStarred(y, k)
    ensures KeyStarred(y, k) && !KeyStarred(y[..n], k) ==> exists p: nat :: KeyCovers(y, p, k) && KeyCrosses(y, n, p)
  {
    var x := y[..n];
    if p :| KeyCovers(x, p, k) {
      FirstKeyCut(y, n, p);
      RunEndCut(y, n, p);
      assert KeyCovers(y, p, k);
    }
    if p :| KeyCovers(y, p, k) {
      FirstKeyCut(y, n, p);
      RunEndCut(y, n, p);
      if RunEnd(y, p) <= n {
        assert KeyCovers(x, p, k);
      } else {
        assert KeyCrosses(y, n, p);
      }
    }
  }

  // ----------------------------------------------- what crosses the cut shows

  // The last four characters of a text are never masked.
  lemma TailShown(x: string, k: int)
    requires |x| - 4 <= k
    ensures !Starred(x, k)
  {
  }

  // So a key that goes on past the cut shows a character there.
  lemma CrossingKeyShows(y: string, n: nat, p: nat)
    requires n <= |y| && KeyCrosses(y, n, p)
    ensures exists k :: ShownByCut(y, n, k)
  {
    var f := FirstKeyOf(y, p);
    var k := if f + 8 <= n then n - 4 else f + 4;
    assert KeyCovers(y, f, k);
    TailShown(y[..n], k);
    assert ShownByCut(y, n, k);
  }

  // A 40-character run that goes on past the cut is too short there: all of its
  // masked characters before the cut are shown.
  lemma CrossingSecretShows(y: string, n: nat, a: int, k: int)
    requires n <= |y| && SecretCrosses(y, n, a) && a + UNMASKED_FIRST <= k < n && k < a + SECRET_KEY_LEN - UNMASKED_LAST
    ensures ShownByCut(y, n, k)
  {
    var x := y[..n];
    MaskKeysAt(x);
    MaskKeysAt(y);
    SecretShown(y, a, k);
    KeyStarredCut(y, n, k);
    forall c | IsSecretAt(MaskKeys(x), c) && c <= k < c + SECRET_KEY_LEN
      ensures c < a
    {
    }
    if c :| IsSecretAt(MaskKeys(x), c) && c <= k < c + SECRET_KEY_LEN {
      BeforeSecret(y, n, a);
    }
  }

  // What ends a 40-character run on its left ends it in the cut text.
  lemma BeforeSecret(y: string, n: nat, a: int)
    requires IsSecretAt(MaskKeys(y), a) && 0 < a && a + UNMASKED_FIRST < n <= |y|
    ensures !IsBase64(MaskKeys(y[..n])[a - 1])
  {
    MaskKeysAt(y[..n]);
    MaskKeysAt(y);
    assert !IsBase64(MaskKeys(y)[a - 1]);
    assert y[..n][a - 1] == y[a - 1];
    SecretShown(y, a, a);
    KeyStarredCut(y, n, a - 1);
    if p: nat :| KeyCovers(y, p, a - 1) && KeyCrosses(y, n, p) { KeysAndSecretsApart(y, p, a); }
  }

  // And on its right, unless a key goes on past the cut.
  lemma AfterSecret(y: string, n: nat, a: int)
    requires IsSecretAt(MaskKeys(y), a) && a + SECRET_KEY_LEN < n <= |y|
    ensures !IsBase64(MaskKeys(y[..n])[a + SECRET_KEY_LEN]) || SomethingCrosses(y, n)
  {
    var k := a + SECRET_KEY_LEN;
    MaskKeysAt(y[..n]);
    MaskKeysAt(y);
    assert !IsBase64(MaskKeys(y)[k]);
    assert y[..n][k] == y[k];
    KeyStarredCut(y, n, k);
  }

  lemma SecretStays(y: string, n: nat, a: int)
    requires IsSecretAt(MaskKeys(y), a) && a + SECRET_KEY_LEN <= n <= |y| && !SomethingCrosses(y, n)
    ensures IsSecretAt(MaskKeys(y[..n]), a)
  {
    var x := y[..n];
    MaskKeysAt(x);
    MaskKeysAt(y);
    forall k | a <= k < a + SECRET_KEY_LEN
      ensures IsBase64(MaskKeys(x)[k])
    {
      SecretShown(y, a, k);
      KeyStarredCut(y, n, k);
      assert x[k] == y[k];
    }
    if a > 0 { BeforeSecret(y, n, a); }
    if a + SECRET_KEY_LEN < n { AfterSecret(y, n, a); }
  }

  lemma ShownCrosses(y: string, n: nat, k: int)
    requires n <= |y| && ShownByCut(y, n, k)
    ensures SomethingCrosses(y, n)
  {
    KeyStarredCut(y, n, k);
    if a :| IsSecretAt(MaskKeys(y), a) && a + UNMASKED_FIRST <= k < a + SECRET_KEY_LEN - UNMASKED_LAST {
      if a + SECRET_KEY_LEN > n {
        assert SecretCrosses(y, n, a);
      } else if !SomethingCrosses(y, n) {
        SecretStays(y, n, a);
      }
    }
  }

  // Cutting a text shows a character that is masked in the whole exactly when an
  // access key or a 40-character run, its masked part begun, goes on past the cut.
  lemma CutShowsIff(y: string, n: nat)
    requires n <= |y|
    ensures (exists k :: ShownByCut(y, n, k)) <==> SomethingCrosses(y, n)
  {
    if k :| ShownByCut(y, n, k) { ShownCrosses(y, n, k); }
    if p: nat :| KeyCrosses(y, n, p) { CrossingKeyShows(y, n, p); }
    if a :| SecretCrosses(y, n, a) { CrossingSecretShows(y, n, a, a + UNMASKED_FIRST); }
  }

  lemma SecretCrossesInside(y: string, n: nat, a: int)
    requires SecretCrosses(y, n, a)
    ensures 0 < n < |y| && IsBase64(y[n - 1]) && IsBase64(y[n])
  {
    SecretShown(y, a, n - 1);
    SecretShown(y, a, n);
  }

  // Nothing goes on past a place that has no base64 character on one side.
  lemma NothingCrosses(y: string, n: nat)
    requires n <= |y| && (n == |y| || !IsBase64(y[n]) || n == 0 || !IsBase64(y[n - 1]))
    ensures !SomethingCrosses(y, n)
  {
    if a :| SecretCrosses(y, n, a) { SecretCrossesInside(y, n, a); }
  }
}
