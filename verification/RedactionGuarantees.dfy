/**
 What is masked and what is not, in terms of the characters of the text alone:
 base64 as in section 4 of RFC 4648, unique IDs as AWS documents their prefixes.
 */
module RedactionGuarantees {
  import opened Regex
  import opened Redaction
  import opened RedactionProperties
  import opened RedactionLocality
  import opened RedactionHiding

  // The base64 digit of this value.
  function Base64Digit(n: nat): char
    requires n < 64
  {
    if n < 26 then 'A' + n as char
    else if n < 52 then 'a' + (n - 26) as char
    else if n < 62 then '0' + (n - 52) as char
    else if n == 62 then '+'
    else '/'
  }

  // A digit or the padding.
  ghost predicate Base64(c: char) {
    c == '=' || exists n: nat :: n < 64 && Base64Digit(n) == c
  }

  // What unique IDs are made of: upper-case letters and figures.
  ghost predicate IdChar(c: char) {
    exists n: nat :: (n < 26 || 52 <= n < 62) && Base64Digit(n) == c
  }

  ghost predicate IdPrefix(w: string) {
    || (|w| == 4 && w[..3] == "A3T" && IdChar(w[3]))
    || w in {"AKIA", "ASIA", "AROA", "AIDA", "AGPA", "AIPA", "ANPA", "ANVA", "APKA", "ASCA", "ABIA", "ACCA"}
  }

  lemma AlphabetsAre(c: char)
    ensures IsBase64(c) <==> Base64(c)
    ensures In(c, UpperDigit) <==> IdChar(c)
  {
    var n := if 'A' <= c <= 'Z' then (c - 'A') as int
             else if 'a' <= c <= 'z' then (c - 'a') as int + 26
             else if '0' <= c <= '9' then (c - '0') as int + 52
             else if c == '+' then 62 else 63;
    if IsBase64(c) && c != '=' { assert Base64Digit(n) == c; }
  }

  lemma PrefixesAre(w: string)
    ensures IsPrefix(w) <==> IdPrefix(w)
  {
    if |w| == 4 { AlphabetsAre(w[3]); }
  }

  // The pattern matches exactly the unique IDs of 20 characters and more.
  lemma UniqueIdsAre(w: string)
    ensures Matches(UNIQUE_ID_REGEX, w) <==>
            |w| >= 20 && IdPrefix(w[..4]) && forall k :: 0 <= k < |w| ==> IdChar(w[k])
  {
    WordMatches(w);
    forall k | 0 <= k < |w|
      ensures In(w[k], UpperDigit) <==> IdChar(w[k])
    {
      AlphabetsAre(w[k]);
    }
    if |w| >= 20 {
      PrefixesAre(w[..4]);
      assert forall k :: 4 <= k < |w| ==> w[4..][k - 4] == w[k];
      assert forall k :: 0 <= k < 4 ==> w[..4][k] == w[k];
      if IsPrefix(w[..4]) { PrefixIsUpperDigit(w[..4]); }
    }
  }

  // A prefix at p and 16 such characters after it.
  ghost predicate StartsId(s: string, p: int) {
    0 <= p && p + 20 <= |s| && IdPrefix(s[p..p + 4]) && forall k :: p <= k < p + 20 ==> IdChar(s[k])
  }

  // 40 base64 characters with none beside them, in which no unique ID starts.
  ghost predicate LoneSecret(s: string, a: int) {
    && 0 <= a && a + 40 <= |s|
    && (forall k :: a <= k < a + 40 ==> Base64(s[k]))
    && (a == 0 || !Base64(s[a - 1]))
    && (a + 40 == |s| || !Base64(s[a + 40]))
    && forall p :: a <= p < a + 40 ==> !StartsId(s, p)
  }

  lemma KeyStartsId(s: string, p: nat)
    requires p < |s|
    ensures KeyAt(s, p) <==> StartsId(s, p)
  {
    forall k | 0 <= k < |s|
      ensures In(s[k], UpperDigit) <==> IdChar(s[k])
    {
      AlphabetsAre(s[k]);
    }
    if p + 4 <= |s| { PrefixesAre(s[p..p + 4]); }
  }

  // Of such characters the first and the last four are logged, and stars between.
  lemma SecretHidden(s: string, a: int)
    requires LoneSecret(s, a)
    ensures forall k :: a <= k < a + 40 ==> Masked(s)[k] == if a + 4 <= k < a + 36 then '*' else s[k]
  {
    forall k | 0 <= k < |s|
      ensures IsBase64(s[k]) <==> Base64(s[k])
    {
      AlphabetsAre(s[k]);
    }
    assert IsSecretAt(s, a);
    forall p: nat | a <= p < a + 40
      ensures !KeyAt(s, p)
    {
      if KeyAt(s, p) { KeyStartsId(s, p); }
    }
    RunHasNoKey(s, a);
    MaskedAt(s);
    forall k | a <= k < a + 40
      ensures Masked(s)[k] == if a + 4 <= k < a + 36 then '*' else s[k]
    {
      SecretShown(s, a, k);
    }
  }

  // A unique ID of at least 20 characters from p to e, with none starting earlier in
  // the same run of such characters.
  ghost predicate FirstId(s: string, p: int, e: int) {
    && 0 <= p && e <= |s| && StartsId(s, p)
    && p + 20 <= e
    && (forall k :: p <= k < e ==> IdChar(s[k]))
    && (e == |s| || !IdChar(s[e]))
    && forall q :: 0 <= q < p && StartsId(s, q) ==> exists j :: q <= j < p && !IdChar(s[j])
  }

  lemma FirstIdIsKey(s: string, p: int, e: int)
    requires FirstId(s, p, e)
    ensures FirstKey(s, p) && RunEnd(s, p) == e
  {
    forall k | 0 <= k < |s|
      ensures In(s[k], UpperDigit) <==> IdChar(s[k])
    {
      AlphabetsAre(s[k]);
    }
    KeyStartsId(s, p);
    forall q | 0 <= q < p && KeyAt(s, q)
      ensures RunEnd(s, q) <= p
    {
      KeyStartsId(s, q);
      var j :| q <= j < p && !IdChar(s[j]);
      assert RunEnd(s, q) <= j;
    }
  }

  // Of it, too, the first and the last four are logged, and stars between.
  lemma IdHidden(s: string, p: int, e: int)
    requires FirstId(s, p, e)
    ensures forall k :: p <= k < e ==> Masked(s)[k] == if p + 4 <= k < e - 4 then '*' else s[k]
  {
    FirstIdIsKey(s, p, e);
    MaskedAt(s);
    forall k | p <= k < e
      ensures Masked(s)[k] == if p + 4 <= k < e - 4 then '*' else s[k]
    {
      KeyEndsShow(s, p, k);
    }
  }

  // No other character of a text ever changes, nor any that is not in the alphabet.
  lemma OthersKept(s: string, k: nat)
    requires k < |s|
    ensures |Masked(s)| == |s|
    ensures !Base64(s[k]) ==> Masked(s)[k] == s[k]
    ensures Masked(s)[k] == s[k] || Masked(s)[k] == '*'
  {
    MaskedAt(s);
    AlphabetsAre(s[k]);
    if Starred(s, k) { StarredIsBase64(s, k); }
  }

  // ------------------------------------------------ the masker, position by position

  ghost predicate InId(s: string, p: int, e: int, k: int) {
    FirstId(s, p, e) && p + 4 <= k < e - 4
  }

  ghost predicate IdHides(s: string, k: int) {
    exists p, e :: InId(s, p, e, k)
  }

  // A base64 character that no unique ID hides.
  ghost predicate Left(s: string, k: int) {
    0 <= k < |s| && Base64(s[k]) && !IdHides(s, k)
  }

  // 40 of them and none beside.
  ghost predicate LeftSecret(s: string, a: int) {
    (forall k :: a <= k < a + 40 ==> Left(s, k)) && !Left(s, a - 1) && !Left(s, a + 40)
  }

  ghost predicate SecretHides(s: string, k: int) {
    exists a :: LeftSecret(s, a) && a + 4 <= k < a + 36
  }

  lemma KeyIsFirstId(s: string, p: int)
    requires FirstKey(s, p)
    ensures FirstId(s, p, RunEnd(s, p))
  {
    forall k | 0 <= k < |s|
      ensures In(s[k], UpperDigit) <==> IdChar(s[k])
    {
      AlphabetsAre(s[k]);
    }
    KeyStartsId(s, p);
    forall q | 0 <= q < p && StartsId(s, q)
      ensures exists j :: q <= j < p && !IdChar(s[j])
    {
      KeyStartsId(s, q);
      assert IdChar(s[p]) && RunEnd(s, q) <= p;
      assert !IdChar(s[RunEnd(s, q)]);
    }
  }

  lemma IdHidesIff(s: string, k: int)
    ensures IdHides(s, k) <==> KeyStarred(s, k)
  {
    if p, e :| InId(s, p, e, k) {
      FirstIdIsKey(s, p, e);
      assert KeyCovers(s, p, k);
    }
    if p :| KeyCovers(s, p, k) {
      KeyIsFirstId(s, p);
      assert InId(s, p, RunEnd(s, p), k);
    }
  }

  lemma LeftIff(s: string, k: nat)
    requires k < |s|
    ensures Left(s, k) <==> IsBase64(MaskKeys(s)[k])
  {
    MaskKeysAt(s);
    AlphabetsAre(s[k]);
    IdHidesIff(s, k);
  }

  lemma LeftSecretIff(s: string, a: int)
    ensures LeftSecret(s, a) <==> IsSecretAt(MaskKeys(s), a)
  {
    forall k | 0 <= k < |s|
      ensures Left(s, k) <==> IsBase64(MaskKeys(s)[k])
    {
      LeftIff(s, k);
    }
    if LeftSecret(s, a) { assert Left(s, a) && Left(s, a + 39); }
  }

  // A character is masked exactly when it is past the first four and before the last
  // four of a unique ID, or of 40 base64 characters left by those with none beside.
  lemma MaskedIs(s: string, k: nat)
    requires k < |s|
    ensures |Masked(s)| == |s|
    ensures Masked(s)[k] == if IdHides(s, k) || SecretHides(s, k) then '*' else s[k]
  {
    MaskedAt(s);
    IdHidesIff(s, k);
    forall a
      ensures LeftSecret(s, a) <==> IsSecretAt(MaskKeys(s), a)
    {
      LeftSecretIff(s, a);
    }
  }
}
