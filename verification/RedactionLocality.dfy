/**
 Masking is local: what happens between two characters outside the base64
 alphabet does not depend on anything beyond them.
 */
module RedactionLocality {
  import opened Redaction
  import opened RedactionProperties
  import opened Strings

  // s[lo..hi] is the whole of s between two characters outside base64, or its ends.
  predicate IsPiece(s: string, lo: nat, hi: nat) {
    lo <= hi <= |s| && (lo == 0 || !IsBase64(s[lo - 1])) && (hi == |s| || !IsBase64(s[hi]))
  }

  lemma RunEndLocal(s: string, lo: nat, hi: nat, i: nat)
    requires IsPiece(s, lo, hi) && lo <= i <= hi
    ensures RunEnd(s, i) == lo + RunEnd(s[lo..hi], i - lo)
  {
    var t := s[lo..hi];
    assert forall k :: 0 <= k < |t| ==> t[k] == s[lo + k];
    assert forall k :: lo <= k < hi ==> s[k] == t[k - lo];
  }

  lemma KeyAtLocal(s: string, lo: nat, hi: nat, p: nat)
    requires IsPiece(s, lo, hi) && lo <= p < hi
    ensures KeyAt(s, p) <==> KeyAt(s[lo..hi], p - lo)
  {
    RunEndLocal(s, lo, hi, p);
    if p + 4 <= hi {
      SliceOfSlice(s, lo, hi, p, p + 4);
    }
  }

  lemma SliceOfSlice(s: string, lo: nat, hi: nat, p: nat, q: nat)
    requires lo <= p <= q <= hi <= |s|
    ensures s[p..q] == s[lo..hi][p - lo..q - lo]
  {
    var t, i, j := s[lo..hi], p - lo, q - lo;
    assert forall k :: 0 <= k < q - p ==> s[p..q][k] == t[i..j][k];
  }

  lemma FirstKeyToPiece(s: string, lo: nat, hi: nat, p: nat)
    requires IsPiece(s, lo, hi) && lo <= p < hi && FirstKey(s, p)
    ensures FirstKey(s[lo..hi], p - lo)
  {
    var t := s[lo..hi];
    KeyAtLocal(s, lo, hi, p);
    forall q | 0 <= q < p - lo && KeyAt(t, q)
      ensures RunEnd(t, q) <= p - lo
    {
      KeyAtLocal(s, lo, hi, lo + q);
      RunEndLocal(s, lo, hi, lo + q);
    }
  }

  lemma FirstKeyFromPiece(s: string, lo: nat, hi: nat, p: nat)
    requires IsPiece(s, lo, hi) && p < hi - lo && FirstKey(s[lo..hi], p)
    ensures FirstKey(s, lo + p)
  {
    KeyAtLocal(s, lo, hi, lo + p);
    forall q | 0 <= q < lo + p && KeyAt(s, q)
      ensures RunEnd(s, q) <= lo + p
    {
      if q >= lo {
        KeyAtLocal(s, lo, hi, q);
        RunEndLocal(s, lo, hi, q);
      }
    }
  }

  lemma KeyStarredLocal(s: string, lo: nat, hi: nat, k: nat)
    requires IsPiece(s, lo, hi) && lo <= k < hi
    ensures KeyStarred(s, k) <==> KeyStarred(s[lo..hi], k - lo)
  {
    var t, j := s[lo..hi], k - lo;
    if p :| KeyCovers(s, p, k) {
      KeyInPiece(s, lo, hi, p, k);
      FirstKeyToPiece(s, lo, hi, p);
      RunEndLocal(s, lo, hi, p);
      assert KeyCovers(t, p - lo, j);
    }
    if p :| KeyCovers(t, p, j) {
      FirstKeyFromPiece(s, lo, hi, p);
      RunEndLocal(s, lo, hi, lo + p);
      assert KeyCovers(s, lo + p, k);
    }
  }

  // A key that covers a position of the piece starts in it.
  lemma KeyInPiece(s: string, lo: nat, hi: nat, p: nat, k: nat)
    requires IsPiece(s, lo, hi) && lo <= k < hi && p <= k < RunEnd(s, p)
    ensures lo <= p
  {
  }

  lemma MaskKeysLocal(s: string, lo: nat, hi: nat)
    requires IsPiece(s, lo, hi)
    ensures MaskKeys(s)[lo..hi] == MaskKeys(s[lo..hi]) && IsPiece(MaskKeys(s), lo, hi)
  {
    MaskKeysAt(s);
    MaskKeysAt(s[lo..hi]);
    forall k | lo <= k < hi
      ensures MaskKeys(s)[k] == MaskKeys(s[lo..hi])[k - lo]
    {
      KeyStarredLocal(s, lo, hi, k);
    }
  }

  lemma SecretAtLocal(s: string, lo: nat, hi: nat, a: int)
    requires IsPiece(s, lo, hi)
    ensures lo <= a <= hi ==> (IsSecretAt(s, a) <==> IsSecretAt(s[lo..hi], a - lo))
    ensures IsSecretAt(s, a) && a < hi && lo < a + SECRET_KEY_LEN ==> lo <= a
  {
    var t := s[lo..hi];
    assert forall k :: lo <= k < hi ==> s[k] == t[k - lo];
    assert forall k :: 0 <= k < |t| ==> t[k] == s[lo + k];
  }

  lemma MaskSecretsLocal(s: string, lo: nat, hi: nat)
    requires IsPiece(s, lo, hi)
    ensures MaskSecrets(s)[lo..hi] == MaskSecrets(s[lo..hi])
  {
    var t := s[lo..hi];
    forall k | lo <= k < hi
      ensures SecretStarred(s, k) <==> SecretStarred(t, k - lo)
    {
      if a :| IsSecretAt(s, a) && a + 4 <= k < a + 36 { SecretAtLocal(s, lo, hi, a); }
      if a :| IsSecretAt(t, a) && a + 4 <= k - lo < a + 36 { SecretAtLocal(s, lo, hi, lo + a); }
    }
  }

  // Every piece is masked as if it stood alone.
  lemma MaskedLocal(s: string, lo: nat, hi: nat)
    requires IsPiece(s, lo, hi)
    ensures Masked(s)[lo..hi] == Masked(s[lo..hi])
  {
    MaskKeysLocal(s, lo, hi);
    MaskSecretsLocal(MaskKeys(s), lo, hi);
  }

  // Only base64 characters are ever starred.
  lemma StarredIsBase64(s: string, k: nat)
    requires k < |s| && (KeyStarred(s, k) || SecretStarred(MaskKeys(s), k))
    ensures IsBase64(s[k]) && Masked(s)[k] == '*'
  {
    MaskKeysAt(s);
    MaskedAt(s);
    if !KeyStarred(s, k) {
      assert MaskKeys(s)[k] == s[k];
    }
  }

  lemma SeparatorKept(s: string, lo: nat, sep: string)
    requires lo + |sep| <= |s| && s[lo..lo + |sep|] == sep && forall k :: 0 <= k < |sep| ==> !IsBase64(sep[k])
    ensures Masked(s)[lo..lo + |sep|] == sep
  {
    MaskedAt(s);
    forall k | lo <= k < lo + |sep|
      ensures Masked(s)[k] == s[k]
    {
      assert s[k] == sep[k - lo];
      if KeyStarred(s, k) || SecretStarred(MaskKeys(s), k) { StarredIsBase64(s, k); }
    }
  }

  lemma Reassemble(m: string, i: nat, j: nat)
    requires i <= j <= |m|
    ensures m == m[0..i] + m[i..j] + m[j..|m|]
  {
  }

  lemma MaskedJoinTwo(a: string, sep: string, b: string)
    requires sep != "" && forall k :: 0 <= k < |sep| ==> !IsBase64(sep[k])
    ensures Masked(a + sep + b) == Masked(a) + sep + Masked(b)
  {
    var s := a + sep + b;
    var lo := |a| + |sep|;
    assert s[|a|] == sep[0] && s[lo - 1] == sep[|sep| - 1];
    assert s[0..|a|] == a && s[|a|..lo] == sep && s[lo..|s|] == b;
    MaskedLocal(s, 0, |a|);
    SeparatorKept(s, |a|, sep);
    MaskedLocal(s, lo, |s|);
    Reassemble(Masked(s), |a|, lo);
  }

  ghost function MaskEach(parts: seq<string>): (r: seq<string>)
    ensures |r| == |parts| && forall i :: 0 <= i < |parts| ==> r[i] == Masked(parts[i])
  {
    if parts == [] then [] else [Masked(parts[0])] + MaskEach(parts[1..])
  }

  // Masking a list joined by such a separator is masking its elements.
  lemma {:induction false} MaskedJoin(parts: seq<string>, sep: string)
    requires parts != []
    requires sep != "" && forall k :: 0 <= k < |sep| ==> !IsBase64(sep[k])
    ensures Masked(Join(parts, sep)) == Join(MaskEach(parts), sep)
  {
    if |parts| > 1 {
      MaskedJoin(parts[1..], sep);
      MaskedJoinTwo(parts[0], sep, Join(parts[1..], sep));
      assert MaskEach(parts)[1..] == MaskEach(parts[1..]);
    }
  }

  // The first n characters of a text are logged as they are exactly when no
  // access-key match begins to be starred, and no 40-character run of what pass
  // one leaves begins to be starred, before n.
  lemma PrefixKeptIff(s: string, n: nat)
    requires n <= |s|
    ensures s[..n] <= Masked(s) <==>
            && (forall p :: 0 <= p && p + UNMASKED_FIRST < n ==> !KeyAt(s, p))
            && (forall a :: a + UNMASKED_FIRST < n ==> !IsSecretAt(MaskKeys(s), a))
  {
    MaskedAt(s);
    forall k | 0 <= k < n
      ensures Masked(s)[k] == s[k] <==> !(KeyStarred(s, k) || SecretStarred(MaskKeys(s), k))
    {
      if KeyStarred(s, k) || SecretStarred(MaskKeys(s), k) { StarredIsBase64(s, k); }
    }
    assert s[..n] <= Masked(s) <==> forall k :: 0 <= k < n ==> Masked(s)[k] == s[k];
    StarredBefore(s, n);
  }

  lemma StarredBefore(s: string, n: nat)
    requires n <= |s|
    ensures (exists k :: 0 <= k < n && (KeyStarred(s, k) || SecretStarred(MaskKeys(s), k))) <==>
            || (exists p :: 0 <= p && p + UNMASKED_FIRST < n && KeyAt(s, p))
            || (exists a :: a + UNMASKED_FIRST < n && IsSecretAt(MaskKeys(s), a))
  {
    if k :| 0 <= k < n && KeyStarred(s, k) {
      var p :| KeyCovers(s, p, k);
      assert KeyAt(s, p);
    }
    if p :| 0 <= p && p + UNMASKED_FIRST < n && KeyAt(s, p) {
      var f := FirstKeyOf(s, p);
      assert KeyCovers(s, f, f + UNMASKED_FIRST);
      assert KeyStarred(s, f + UNMASKED_FIRST);
    }
    if a :| a + UNMASKED_FIRST < n && IsSecretAt(MaskKeys(s), a) {
      assert SecretStarred(MaskKeys(s), a + UNMASKED_FIRST);
    }
  }

  // A text is logged as it is exactly when it has no access-key match and no
  // 40-character run.
  lemma UntouchedIff(s: string)
    ensures Masked(s) == s <==>
            && (forall p :: 0 <= p < |s| ==> !KeyAt(s, p))
            && (forall a :: 0 <= a < |s| ==> !IsSecretAt(s, a))
  {
    PrefixKeptIff(s, |s|);
    assert s[..|s|] == s;
    assert FindKey(s, 0) == -1 ==> MaskKeys(s) == s;
    assert Masked(s) == s <==> s <= Masked(s);
  }
}
