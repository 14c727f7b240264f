/**
 Masking of AWS key material in log text (logging/aws.go, logging/mask.go).
 A Go string or []byte is a `string` or an `array<char>`, one char per byte.
 */
module Redaction {
  import opened Regex

  const UNMASKED_FIRST := 4
  const UNMASKED_LAST := 4
  const SECRET_KEY_LEN := 40

  // ---------------------------------------------------------------- mask.go

  function Stars(n: nat): (r: string)
    ensures |r| == n && forall k :: 0 <= k < n ==> r[k] == '*'
  {
    seq(n, _ => '*')
  }

  // The text partialMaskString produces, including the overlap it produces when
  // the two unmasked ends do not fit side by side.
  function PartialMask(s: string, first: nat, last: nat): string
    requires first <= |s| && last <= |s|
  {
    s[..first] + Stars(if first + last <= |s| then |s| - first - last else 0) + s[|s| - last..]
  }

  method PartialMaskString(s: string, first: nat, last: nat) returns (result: string)
    requires first <= |s| && last <= |s|
    ensures result == PartialMask(s, first, last)
    ensures first + last <= |s| ==>
              |result| == |s| &&
              forall k :: 0 <= k < |s| ==> result[k] == if first <= k < |s| - last then '*' else s[k]
    ensures first + last > |s| ==> result == s[..first] + s[|s| - last..]
  {
    var l := |s|;
    result := s[0..first];
    var n := 0;
    while n < l - first - last
      invariant 0 <= n && (n <= l - first - last || n == 0)
      invariant result == s[..first] + Stars(n)
    {
      result := result + ['*'];
      n := n + 1;
    }
    result := result + s[l - last..];
  }

  // ----------------------------------------------- aws.go: access key IDs

  const LITERAL_PREFIXES: seq<string> :=
    ["ABIA", "ACCA", "AGPA", "AIDA", "AIPA", "AKIA", "ANPA", "ANVA", "APKA", "AROA", "ASCA", "ASIA"]

  const A3T_PREFIX: Regex := Cat(Lit("A3T"), One(UpperDigit))

  const UNIQUE_ID_PREFIX: Regex :=
    Alt([A3T_PREFIX] + seq(|LITERAL_PREFIXES|, i requires 0 <= i < |LITERAL_PREFIXES| => Lit(LITERAL_PREFIXES[i])))

  const UNIQUE_ID_REGEX: Regex := Cat(UNIQUE_ID_PREFIX, AtLeast(16, UpperDigit))

  predicate IsPrefix(w: string) {
    w in LITERAL_PREFIXES || (|w| == 4 && w[..3] == "A3T" && In(w[3], UpperDigit))
  }

  // A unique ID prefix starts at p.
  predicate IsPrefixAt(s: string, p: nat) {
    p + 4 <= |s| && IsPrefix(s[p..p + 4])
  }

  // The end of the [A-Z0-9] run that position i lies in (i itself when it lies in none).
  function RunEnd(s: string, i: nat): (e: nat)
    requires i <= |s|
    ensures i <= e <= |s|
    ensures forall k :: i <= k < e ==> In(s[k], UpperDigit)
    ensures e < |s| ==> !In(s[e], UpperDigit)
    decreases |s| - i
  {
    if i < |s| && In(s[i], UpperDigit) then RunEnd(s, i + 1) else i
  }

  predicate KeyAt(s: string, p: nat) {
    IsPrefixAt(s, p) && RunEnd(s, p) - p >= 20
  }

  function FindKey(s: string, from: nat): (r: int)
    requires from <= |s|
    ensures r == -1 || (from <= r < |s| && KeyAt(s, r))
    ensures forall q :: from <= q < (if r == -1 then |s| else r) ==> !KeyAt(s, q)
    decreases |s| - from
  {
    if from == |s| then -1
    else if KeyAt(s, from) then from
    else FindKey(s, from + 1)
  }

  // ReplaceAllFunc over s[from..]: copy up to the match, mask the match, go on after it.
  function MaskKeysFrom(s: string, from: nat): (r: string)
    requires from <= |s|
    ensures |r| == |s| - from
    decreases |s| - from
  {
    var p := FindKey(s, from);
    if p == -1 then s[from..]
    else
      var e := RunEnd(s, p);
      s[from..p] + PartialMask(s[p..e], UNMASKED_FIRST, UNMASKED_LAST) + MaskKeysFrom(s, e)
  }

  function MaskKeys(s: string): (r: string)
    ensures |r| == |s|
  {
    MaskKeysFrom(s, 0)
  }

  method MaskAWSAccessKey(field: array<char>) returns (r: array<char>)
    ensures fresh(r) && r[..] == MaskKeys(field[..])
  {
    var masked := MaskKeys(field[..]);
    r := new char[|masked|](i requires 0 <= i < |masked| => masked[i]);
  }

  // --------------------------------------------- aws.go: secret access keys

  predicate IsBase64(c: char) {
    'A' <= c <= 'Z' || 'a' <= c <= 'z' || '0' <= c <= '9' || c == '/' || c == '+' || c == '='
  }

  // [a, b) is a maximal run of base64 characters of s.
  predicate IsRun(s: string, a: int, b: int) {
    && 0 <= a < b <= |s|
    && (forall k :: a <= k < b ==> IsBase64(s[k]))
    && (a == 0 || !IsBase64(s[a - 1]))
    && (b == |s| || !IsBase64(s[b]))
  }

  predicate IsSecretAt(s: string, a: int) {
    IsRun(s, a, a + SECRET_KEY_LEN)
  }

  // Position k is among the middle 32 characters of a 40-character run.
  ghost predicate SecretStarred(s: string, k: int) {
    exists a :: IsSecretAt(s, a) && a + UNMASKED_FIRST <= k < a + SECRET_KEY_LEN - UNMASKED_LAST
  }

  ghost function MaskSecrets(s: string): string {
    seq(|s|, k requires 0 <= k < |s| => if SecretStarred(s, k) then '*' else s[k])
  }

  lemma RunsDisjoint(s: string, a: int, b: int, c: int, d: int)
    requires IsRun(s, a, b) && IsRun(s, c, d)
    requires a < d && c < b
    ensures a == c && b == d
  {
  }

  lemma RunStars(s: string, a: int, b: int, k: int)
    requires IsRun(s, a, b) && a <= k < b
    ensures SecretStarred(s, k) <==> b - a == SECRET_KEY_LEN && a + UNMASKED_FIRST <= k < b - UNMASKED_LAST
  {
    if SecretStarred(s, k) {
      var c :| IsSecretAt(s, c) && c + UNMASKED_FIRST <= k < c + SECRET_KEY_LEN - UNMASKED_LAST;
      RunsDisjoint(s, a, b, c, c + SECRET_KEY_LEN);
    }
    if b - a == SECRET_KEY_LEN {
      assert IsSecretAt(s, a);
    }
  }

  // The middle of [a, b) when its length is that of a secret key.
  predicate InMiddle(a: int, b: int, k: int) {
    b - a == SECRET_KEY_LEN && a + UNMASKED_FIRST <= k < b - UNMASKED_LAST
  }

  // State of the scan with everything before n final and the rest untouched.
  ghost predicate MaskedUpTo(was: string, now: string, n: int) {
    && 0 <= n <= |was| == |now|
    && (forall k :: 0 <= k < n ==> now[k] == if SecretStarred(was, k) then '*' else was[k])
    && (forall k :: n <= k < |was| ==> now[k] == was[k])
  }

  lemma RunMasked(was: string, before: string, now: string, a: int, b: int)
    requires IsRun(was, a, b) && MaskedUpTo(was, before, a) && |now| == |was|
    requires forall k :: 0 <= k < |was| ==> now[k] == if InMiddle(a, b, k) then '*' else before[k]
    ensures MaskedUpTo(was, now, b)
  {
    forall k | a <= k < b
      ensures now[k] == if SecretStarred(was, k) then '*' else was[k]
    {
      RunStars(was, a, b, k);
    }
  }

  lemma NonBase64NotStarred(s: string, k: int)
    requires 0 <= k < |s| && !IsBase64(s[k])
    ensures !SecretStarred(s, k)
  {
  }

  method MaskAWSSecretKeys(arr: array<char>)
    modifies arr
    ensures arr[..] == MaskSecrets(old(arr[..]))
  {
    ghost var was := arr[..];
    var len := arr.Length;
    var base64Characters := 0;

    for i := 0 to len
      invariant 0 <= base64Characters <= i
      invariant MaskedUpTo(was, arr[..], i - base64Characters)
      invariant forall k :: i - base64Characters <= k < i ==> IsBase64(was[k])
      invariant base64Characters < i ==> !IsBase64(was[i - base64Characters - 1])
    {
      var b := arr[i];
      if IsBase64(b) {
        base64Characters := base64Characters + 1;
      } else {
        ghost var before := arr[..];
        if base64Characters == SECRET_KEY_LEN {
          for j := i - SECRET_KEY_LEN + UNMASKED_FIRST to i - UNMASKED_LAST
            invariant forall k :: 0 <= k < len ==>
              arr[k] == if i - SECRET_KEY_LEN + UNMASKED_FIRST <= k < j then '*' else before[k]
          {
            arr[j] := '*';
          }
        }
        if base64Characters > 0 {
          RunMasked(was, before, arr[..], i - base64Characters, i);
        }
        NonBase64NotStarred(was, i);
        base64Characters := 0;
      }
    }

    ghost var before := arr[..];
    if base64Characters == SECRET_KEY_LEN {
      for j := len - SECRET_KEY_LEN + UNMASKED_FIRST to len - UNMASKED_LAST
        invariant forall k :: 0 <= k < len ==>
          arr[k] == if len - SECRET_KEY_LEN + UNMASKED_FIRST <= k < j then '*' else before[k]
      {
        arr[j] := '*';
      }
    }
    if base64Characters > 0 {
      RunMasked(was, before, arr[..], len - base64Characters, len);
    }
  }

  // ------------------------------------------------- aws.go: the composition

  ghost function Masked(s: string): (r: string)
    ensures |r| == |s|
  {
    MaskSecrets(MaskKeys(s))
  }

  // The byte view of a string must never be written to: `view` stands for the
  // string's own memory, and only the copy made by the first pass is changed.
  method MaskAWSSensitiveValues(field: string) returns (r: string)
    ensures r == Masked(field)
  {
    var view := new char[|field|](i requires 0 <= i < |field| => field[i]);
    assert view[..] == field;
    var b := MaskAWSAccessKey(view);
    MaskAWSSecretKeys(b);
    assert view[..] == field;
    r := b[..];
  }
}
