/**
 The logged form of an Authorization header (logging/http.go,
 authorizationHeaderAttribute): a scheme, then either the components of an AWS
 signature, with most values hidden, or stars only.
 */
module AuthorizationHeader {
  import opened Regex
  import opened Redaction
  import opened RedactionProperties
  import opened RedactionLocality
  import opened Strings

  // Panic: indexing past the one piece of a component that has no equals sign.
  datatype Attribute = NotLogged | Logged(value: string) | Panic

  const AWS4 := "AWS4-"
  const HIDDEN := "*****"

  // --------------------------------------------------- the two regexp splits

  // The first white space at or after i, or the length.
  function SpaceFrom(s: string, i: nat): (r: nat)
    requires i <= |s|
    ensures i <= r <= |s| && (r < |s| ==> In(s[r], Space))
    ensures forall k :: i <= k < r ==> !In(s[k], Space)
    decreases |s| - i
  {
    if i == |s| || In(s[i], Space) then i else SpaceFrom(s, i + 1)
  }

  // The end of the white space that starts at i.
  function SkipSpace(s: string, i: nat): (r: nat)
    requires i <= |s|
    ensures i <= r <= |s| && (r < |s| ==> !In(s[r], Space))
    ensures forall k :: i <= k < r ==> In(s[k], Space)
    decreases |s| - i
  {
    if i == |s| || !In(s[i], Space) then i else SkipSpace(s, i + 1)
  }

  // Split by `\s+` into at most two pieces.
  function SplitScheme(v: string): seq<string> {
    var i := SpaceFrom(v, 0);
    if i == |v| then [v] else [v[..i], v[SkipSpace(v, i)..]]
  }

  predicate SeparatorAt(s: string, k: nat) {
    k + 1 < |s| && s[k] == ',' && In(s[k + 1], Space)
  }

  function SeparatorFrom(s: string, i: nat): (r: nat)
    requires i <= |s|
    ensures i <= r <= |s| && (r < |s| ==> SeparatorAt(s, r))
    ensures forall k :: i <= k < r ==> !SeparatorAt(s, k)
    decreases |s| - i
  {
    if i == |s| || SeparatorAt(s, i) then i else SeparatorFrom(s, i + 1)
  }

  // Split by `,\s+` into all pieces.
  function Components(s: string): seq<string>
    decreases |s|
  {
    var k := SeparatorFrom(s, 0);
    if k == |s| then [s] else [s[..k]] + Components(s[SkipSpace(s, k + 1)..])
  }

  // --------------------------------------------------------- one component

  // The part up to and including the first equals sign.
  function Name(c: string): string
    requires '=' in c
  {
    c[..IndexFrom(c, '=', 0) + 1]
  }

  function Val(c: string): string
    requires '=' in c
  {
    c[IndexFrom(c, '=', 0) + 1..]
  }

  predicate Shown(name: string) {
    name == "SignedHeaders=" || name == "Credential="
  }

  function Redact(c: string): string
    requires '=' in c
  {
    Name(c) + if Shown(Name(c)) then Val(c) else HIDDEN
  }

  predicate AllNamed(cs: seq<string>) {
    forall i :: 0 <= i < |cs| ==> '=' in cs[i]
  }

  function RedactAll(cs: seq<string>): (r: seq<string>)
    requires AllNamed(cs)
    ensures |r| == |cs|
  {
    seq(|cs|, i requires 0 <= i < |cs| => Redact(cs[i]))
  }

  const SEPARATOR := ", "

  // --------------------------------------------------------- the attribute

  ghost function SignatureOf(scheme: string, cs: seq<string>): Attribute {
    if AllNamed(cs) then Logged(scheme + " " + Masked(Join(RedactAll(cs), SEPARATOR))) else Panic
  }

  ghost function AttributeOf(v: string): Attribute {
    var parts := SplitScheme(v);
    if |parts| != 2 || parts[0] == "" || parts[1] == "" then NotLogged
    else if AWS4 <= parts[0] then SignatureOf(parts[0], Components(parts[1]))
    else Logged(parts[0] + " " + Stars(|parts[1]|))
  }

  // The builder after i components: with a separator still to be followed.
  function Built(redacted: seq<string>, i: nat, n: nat): string
    requires i <= |redacted|
  {
    Join(redacted[..i], SEPARATOR) + if 0 < i < n then SEPARATOR else ""
  }

  lemma BuiltAll(redacted: seq<string>)
    ensures Built(redacted, |redacted|, |redacted|) == Join(redacted, SEPARATOR)
  {
    assert redacted[..|redacted|] == redacted;
    assert Join(redacted, SEPARATOR) + "" == Join(redacted, SEPARATOR);
  }

  method AuthorizationHeaderAttribute(v: string) returns (attr: Attribute)
    ensures attr == AttributeOf(v)
  {
    var parts := SplitScheme(v);
    if |parts| != 2 {
      return NotLogged;
    }
    var scheme := parts[0];
    if scheme == "" {
      return NotLogged;
    }
    var params := parts[1];
    if params == "" {
      return NotLogged;
    }
    if AWS4 <= scheme {
      var components := Components(params);
      var builder := "";
      for i := 0 to |components|
        invariant AllNamed(components[..i])
        invariant builder == Built(RedactAll(components[..i]), i, |components|)
      {
        var component := components[i];
        if '=' !in component {
          return Panic;
        }
        var name, value := Name(component), Val(component);
        if !Shown(name) {
          value := HIDDEN;
        }
        ghost var before := builder;
        builder := builder + name;
        builder := builder + value;
        assert builder == before + Redact(component);
        ExtendBuilt(components, i);
        if i < |components| - 1 {
          builder := builder + ", ";
        }
      }
      assert components[..|components|] == components;
      BuiltAll(RedactAll(components));
      var masked := MaskAWSSensitiveValues(builder);
      return Logged(scheme + " " + masked);
    } else {
      return Logged(scheme + " " + Stars(|params|));
    }
  }

  lemma ExtendBuilt(cs: seq<string>, i: nat)
    requires i < |cs| && AllNamed(cs[..i]) && '=' in cs[i]
    ensures AllNamed(cs[..i + 1])
    ensures Built(RedactAll(cs[..i + 1]), i + 1, |cs|) ==
            Built(RedactAll(cs[..i]), i, |cs|) + Redact(cs[i]) + if i < |cs| - 1 then SEPARATOR else ""
  {
    var before, now := RedactAll(cs[..i]), RedactAll(cs[..i + 1]);
    assert now == before + [Redact(cs[i])];
    assert before[..i] == before && now[..i + 1] == now;
    if i > 0 {
      JoinAppend(before, [Redact(cs[i])], SEPARATOR);
    }
  }

  // ------------------------------------------------ the splits and the join

  // The scheme split is at the leftmost, greedy occurrence of the pattern.
  lemma SchemeSplitIsRegexp(v: string)
    ensures var i := SpaceFrom(v, 0);
            if i == |v| then forall p, q :: !MatchesAt(AtLeast(1, Space), v, p, q)
            else LeftmostGreedy(AtLeast(1, Space), v, 0, i, SkipSpace(v, i))
  {
    forall p, q | MatchesAt(AtLeast(1, Space), v, p, q)
      ensures In(v[p], Space) && forall k :: p <= k < q ==> In(v[k], Space)
    {
      assert forall k :: p <= k < q ==> v[k] == v[p..q][k - p];
    }
  }

  const SEPARATOR_REGEX: Regex := Cat(Lit(","), AtLeast(1, Space))

  lemma SeparatorMatches(s: string, p: nat, q: nat)
    ensures MatchesAt(SEPARATOR_REGEX, s, p, q) <==> SeparatorAt(s, p) && p + 2 <= q <= SkipSpace(s, p + 1)
  {
    if p <= q <= |s| {
      var w := s[p..q];
      assert forall i :: 0 <= i < |w| ==> w[i] == s[p + i];
      if MatchesAt(SEPARATOR_REGEX, s, p, q) {
        var i :| 0 <= i <= |w| && Matches(Lit(","), w[..i]) && Matches(AtLeast(1, Space), w[i..]);
        assert w[..1] == ",";
        assert w[0] == w[..1][0];
        forall k | p + 1 <= k < q
          ensures In(s[k], Space)
        {
          assert s[k] == w[i..][k - p - 1];
        }
      }
      if SeparatorAt(s, p) && p + 2 <= q <= SkipSpace(s, p + 1) {
        assert w[..1] == "," && AllIn(w[1..], Space);
        assert Matches(Lit(","), w[..1]) && Matches(AtLeast(1, Space), w[1..]);
      }
    }
  }

  // And each component split is at the next leftmost, greedy occurrence of its own.
  lemma ComponentSplitIsRegexp(s: string)
    ensures var k := SeparatorFrom(s, 0);
            if k == |s| then forall p, q :: !MatchesAt(SEPARATOR_REGEX, s, p, q)
            else LeftmostGreedy(SEPARATOR_REGEX, s, 0, k, SkipSpace(s, k + 1))
  {
    var k := SeparatorFrom(s, 0);
    forall p, q | MatchesAt(SEPARATOR_REGEX, s, p, q)
      ensures SeparatorAt(s, p) && q <= SkipSpace(s, p + 1)
    {
      SeparatorMatches(s, p, q);
    }
    if k < |s| {
      SeparatorMatches(s, k, SkipSpace(s, k + 1));
    }
  }

  predicate NoSeparator(c: string) {
    forall k :: 0 <= k < |c| ==> !SeparatorAt(c, k)
  }

  predicate StartsWithSpace(c: string) {
    c != "" && In(c[0], Space)
  }

  // What splitting leaves: no separator inside a component, and white space at
  // the start of the first one only.
  lemma {:induction false} ComponentsAre(s: string)
    ensures var cs := Components(s);
            cs != [] && (StartsWithSpace(cs[0]) ==> StartsWithSpace(s))
            && forall i :: 0 <= i < |cs| ==> NoSeparator(cs[i]) && (i > 0 ==> !StartsWithSpace(cs[i]))
    decreases |s|
  {
    var k := SeparatorFrom(s, 0);
    if k < |s| {
      var rest := s[SkipSpace(s, k + 1)..];
      ComponentsAre(rest);
      var head := s[..k];
      forall j | 0 <= j < |head|
        ensures !SeparatorAt(head, j)
      {
        assert !SeparatorAt(s, j);
      }
    }
  }

  // Joining such components and splitting again gives them back.
  lemma {:induction false} ComponentsOfJoin(cs: seq<string>)
    requires cs != []
    requires forall i :: 0 <= i < |cs| ==> NoSeparator(cs[i]) && (i > 0 ==> cs[i] != "" && !StartsWithSpace(cs[i]))
    ensures Components(Join(cs, SEPARATOR)) == cs
    decreases |cs|
  {
    if |cs| == 1 {
      assert SeparatorFrom(cs[0], 0) == |cs[0]|;
    } else {
      var rest := Join(cs[1..], SEPARATOR);
      ComponentsOfJoin(cs[1..]);
      assert rest[0] == cs[1][0];
      SplitOffFirst(cs[0], rest);
      assert cs == [cs[0]] + cs[1..];
    }
  }

  lemma SplitOffFirst(c: string, rest: string)
    requires NoSeparator(c) && rest != "" && !StartsWithSpace(rest)
    ensures Components(c + SEPARATOR + rest) == [c] + Components(rest)
  {
    FirstSeparator(c, rest);
  }

  lemma FirstSeparator(c: string, rest: string)
    requires NoSeparator(c) && rest != "" && !StartsWithSpace(rest)
    ensures var s := c + ", " + rest;
            SeparatorFrom(s, 0) == |c| && s[..|c|] == c && SkipSpace(s, |c| + 1) == |c| + 2 && s[|c| + 2..] == rest
  {
    var s := c + ", " + rest;
    assert SeparatorAt(s, |c|);
    forall k | 0 <= k < |c|
      ensures !SeparatorAt(s, k)
    {
      assert !SeparatorAt(c, k);
    }
    assert s[|c| + 2] == rest[0];
  }

  // ------------------------------------------------------ what is logged

  // A first word, white space, and something after it.
  predicate HasSchemeAndParams(v: string) {
    && v != "" && !In(v[0], Space)
    && exists i, j :: 0 < i < j < |v| && In(v[i], Space) && !In(v[j], Space)
  }

  function Scheme(v: string): string {
    v[..SpaceFrom(v, 0)]
  }

  function Params(v: string): string {
    v[SkipSpace(v, SpaceFrom(v, 0))..]
  }

  // A header is left out of the log exactly when it has no such form.
  lemma NotLoggedIff(v: string)
    ensures AttributeOf(v) == NotLogged <==> !HasSchemeAndParams(v)
  {
    var i := SpaceFrom(v, 0);
    var j := SkipSpace(v, i);
    if 0 < i < |v| && j < |v| {
      assert In(v[i], Space) && !In(v[j], Space);
    }
  }

  lemma SchemeAndParams(v: string)
    requires HasSchemeAndParams(v)
    ensures SplitScheme(v) == [Scheme(v), Params(v)] && Scheme(v) != "" && Params(v) != ""
    ensures !StartsWithSpace(Params(v)) && forall k :: 0 <= k < |Scheme(v)| ==> !In(Scheme(v)[k], Space)
  {
    NotLoggedIff(v);
  }

  // A component as a client writes it.
  predicate WellFormed(c: string) {
    '=' in c && !StartsWithSpace(c) && NoSeparator(c)
  }

  predicate AllWellFormed(cs: seq<string>) {
    cs != [] && forall i :: 0 <= i < |cs| ==> WellFormed(cs[i])
  }

  predicate IsAws4Scheme(scheme: string) {
    AWS4 <= scheme && forall k :: 0 <= k < |scheme| ==> !In(scheme[k], Space)
  }

  function Header(scheme: string, cs: seq<string>): string {
    scheme + " " + Join(cs, SEPARATOR)
  }

  lemma HeaderParts(scheme: string, params: string)
    requires scheme != "" && forall k :: 0 <= k < |scheme| ==> !In(scheme[k], Space)
    requires params != "" && !StartsWithSpace(params)
    ensures SplitScheme(scheme + " " + params) == [scheme, params]
  {
    var v := scheme + " " + params;
    assert v[|scheme|] == ' ' && v[|scheme| + 1] == params[0];
    assert forall k :: 0 <= k < |scheme| ==> v[k] == scheme[k];
    assert SpaceFrom(v, 0) == |scheme|;
    assert SkipSpace(v, |scheme|) == |scheme| + 1;
    assert v[..|scheme|] == scheme && v[|scheme| + 1..] == params;
  }

  lemma HeaderLogged(scheme: string, cs: seq<string>)
    requires IsAws4Scheme(scheme) && AllWellFormed(cs)
    ensures AttributeOf(Header(scheme, cs)) == Logged(scheme + " " + Masked(Join(RedactAll(cs), SEPARATOR)))
  {
    assert WellFormed(cs[0]);
    assert Join(cs, SEPARATOR) != "" && Join(cs, SEPARATOR)[0] == cs[0][0];
    HeaderParts(scheme, Join(cs, SEPARATOR));
    ComponentsOfJoin(cs);
  }

  // d has an equals sign where c has one, and then its name, and its value if shown.
  predicate ShownAlike(c: string, d: string) {
    && ('=' in c <==> '=' in d)
    && ('=' in c ==> Name(c) == Name(d) && (Shown(Name(c)) ==> Val(c) == Val(d)))
  }

  predicate AllShownAlike(cs: seq<string>, ds: seq<string>) {
    |cs| == |ds| && forall i :: 0 <= i < |cs| ==> ShownAlike(cs[i], ds[i])
  }

  // Any two signatures of one scheme that agree on the component names and on the
  // values shown are logged alike, whatever the other values and the white space.
  lemma HiddenValuesDoNotShow(v: string, w: string)
    requires HasSchemeAndParams(v) && HasSchemeAndParams(w)
    requires Scheme(v) == Scheme(w) && AWS4 <= Scheme(v)
    requires AllShownAlike(Components(Params(v)), Components(Params(w)))
    ensures AttributeOf(v) == AttributeOf(w)
  {
    SchemeAndParams(v);
    SchemeAndParams(w);
    var cs, ds := Components(Params(v)), Components(Params(w));
    assert AllNamed(cs) <==> AllNamed(ds) by {
      assert forall i :: 0 <= i < |cs| ==> ShownAlike(cs[i], ds[i]);
    }
    if AllNamed(cs) {
      forall i | 0 <= i < |cs|
        ensures Redact(cs[i]) == Redact(ds[i])
      {
        assert ShownAlike(cs[i], ds[i]);
      }
      assert RedactAll(cs) == RedactAll(ds);
    }
  }

  // r is component c with the same name, and its value or stars.
  predicate RedactedAs(c: string, r: string) {
    '=' in c && '=' in r && Name(r) == Name(c) && Val(r) == if Shown(Name(c)) then Val(c) else HIDDEN
  }

  lemma RedactKeepsName(c: string)
    requires WellFormed(c)
    ensures WellFormed(Redact(c)) && RedactedAs(c, Redact(c))
  {
    var e, r := IndexFrom(c, '=', 0), Redact(c);
    if Shown(Name(c)) {
      assert r == c;
    } else {
      assert forall k :: 0 <= k <= e ==> r[k] == c[k];
      assert IndexFrom(r, '=', 0) == e;
      assert r[..e + 1] == Name(c);
      assert r[e + 1..] == HIDDEN;
      forall k | 0 <= k < |r|
        ensures !SeparatorAt(r, k)
      {
        assert k < |c| ==> !SeparatorAt(c, k);
        assert k > e ==> r[k] == '*';
      }
    }
  }

  lemma RedactedComponents(cs: seq<string>)
    requires AllWellFormed(cs)
    ensures Components(Join(RedactAll(cs), SEPARATOR)) == RedactAll(cs)
    ensures forall i :: 0 <= i < |cs| ==> RedactedAs(cs[i], RedactAll(cs)[i])
  {
    var rs := RedactAll(cs);
    forall i | 0 <= i < |cs|
      ensures WellFormed(rs[i]) && RedactedAs(cs[i], rs[i])
    {
      RedactKeepsName(cs[i]);
    }
    ComponentsOfJoin(rs);
  }

  // Masking leaves a component a component.
  lemma MaskedKeepsShape(c: string)
    requires c != "" && !StartsWithSpace(c) && NoSeparator(c)
    ensures Masked(c) != "" && !StartsWithSpace(Masked(c)) && NoSeparator(Masked(c))
  {
    MaskedAt(c);
    var m := Masked(c);
    assert forall k :: 0 <= k < |c| ==> m[k] == c[k] || m[k] == '*';
    forall k | 0 <= k < |m|
      ensures !SeparatorAt(m, k)
    {
      assert !SeparatorAt(c, k);
    }
  }

  lemma MaskedComponents(cs: seq<string>)
    requires AllWellFormed(cs)
    ensures var text := Masked(Join(RedactAll(cs), SEPARATOR));
            text != "" && !StartsWithSpace(text) && Components(text) == MaskEach(RedactAll(cs))
  {
    var rs := RedactAll(cs);
    var ms := MaskEach(rs);
    forall i | 0 <= i < |ms|
      ensures ms[i] != "" && !StartsWithSpace(ms[i]) && NoSeparator(ms[i])
    {
      RedactKeepsName(cs[i]);
      MaskedKeepsShape(rs[i]);
    }
    MaskedJoin(rs, SEPARATOR);
    ComponentsOfJoin(ms);
    assert Join(ms, SEPARATOR)[0] == ms[0][0];
  }

  // The value logged for any signature has the header's scheme, and its components
  // are the header's own, each redacted and masked by itself, in order.
  lemma LoggedComponents(v: string)
    requires AttributeOf(v).Logged? && AWS4 <= Scheme(v)
    ensures var cs, out := Components(Params(v)), AttributeOf(v).value;
            && AllNamed(cs) && HasSchemeAndParams(out) && Scheme(out) == Scheme(v)
            && Components(Params(out)) == MaskEach(RedactAll(cs))
  {
    NotLoggedIff(v);
    SchemeAndParams(v);
    var cs := Components(Params(v));
    ComponentsAre(Params(v));
    MaskedComponents(cs);
    LogsBack(Scheme(v), Masked(Join(RedactAll(cs), SEPARATOR)));
  }

  lemma LogsBack(scheme: string, text: string)
    requires scheme != "" && forall k :: 0 <= k < |scheme| ==> !In(scheme[k], Space)
    requires text != "" && !StartsWithSpace(text)
    ensures var out := scheme + " " + text;
            HasSchemeAndParams(out) && Scheme(out) == scheme && Params(out) == text
  {
    var out := scheme + " " + text;
    HeaderParts(scheme, text);
    assert In(out[|scheme|], Space) && !In(out[|scheme| + 1], Space);
    assert out[0] == scheme[0];
  }

  // When masking leaves the name of a component: a hidden one's name must have no
  // access-key match and no 40-character run; a shown one must not be, with its
  // name, the start of a 40-character run of what pass one leaves.
  predicate NameSurvives(c: string)
    requires '=' in c
  {
    if Shown(Name(c)) then !IsSecretAt(MaskKeys(c), 0)
    else
      && (forall p :: 0 <= p < |Name(c)| ==> !KeyAt(Name(c), p))
      && (forall a :: 0 <= a < |Name(c)| ==> !IsSecretAt(Name(c), a))
  }

  lemma HiddenNameIff(c: string)
    requires '=' in c && !Shown(Name(c))
    ensures Masked(Redact(c)) == Masked(Name(c)) + HIDDEN
    ensures Name(c) <= Masked(Redact(c)) <==> NameSurvives(c)
  {
    var name := Name(c);
    assert name + HIDDEN + "" == name + HIDDEN;
    MaskedJoinTwo(name, HIDDEN, "");
    assert Masked("") == "";
    UntouchedIff(name);
    assert (Masked(name) + HIDDEN)[..|name|] == Masked(name);
  }

  lemma ShownNameShape(name: string)
    requires Shown(name)
    ensures 0 < |name| <= 14 && name[|name| - 1] == '=' && forall k :: 0 <= k < |name| ==> IsBase64(name[k])
  {
  }

  // What starts with a shown name has no key in that name, and no 40-character run
  // that starts in it but not with it.
  lemma ShownNameStart(c: string, name: string)
    requires Shown(name) && name <= c
    ensures forall p :: 0 <= p < |name| ==> !KeyAt(c, p)
    ensures forall a :: 0 < a < |name| ==> !IsSecretAt(MaskKeys(c), a)
  {
    ShownNameShape(name);
    var n := |name|;
    assert forall k :: 0 <= k < n ==> c[k] == name[k];
    assert forall p :: 0 <= p < n ==> RunEnd(c, p) < n;
    MaskKeysAt(c);
    forall a | 0 < a < n
      ensures !IsSecretAt(MaskKeys(c), a)
    {
      assert !KeyStarred(c, a - 1);
      assert IsBase64(MaskKeys(c)[a - 1]);
    }
  }

  lemma ShownNameIff(c: string)
    requires '=' in c && Shown(Name(c))
    ensures Redact(c) == c
    ensures Name(c) <= Masked(Redact(c)) <==> NameSurvives(c)
  {
    var n := |Name(c)|;
    assert Name(c) == c[..n] && c == c[..n] + c[n..];
    ShownNameShape(Name(c));
    ShownNameStart(c, Name(c));
    PrefixKeptIff(c, n);
    assert forall a :: IsSecretAt(MaskKeys(c), a) ==> 0 <= a;
    assert UNMASKED_FIRST < n;
  }

  // A shown name is lost exactly when the component starts with 40 base64
  // characters that no access key covers, and then ends, or goes on with another
  // character or a covered one.
  lemma ShownNameLostIff(c: string)
    requires '=' in c && Shown(Name(c))
    ensures !NameSurvives(c) <==>
            && |c| >= SECRET_KEY_LEN
            && (forall k :: 0 <= k < SECRET_KEY_LEN ==> IsBase64(c[k]) && !KeyStarred(c, k))
            && (|c| == SECRET_KEY_LEN || !IsBase64(c[SECRET_KEY_LEN]) || KeyStarred(c, SECRET_KEY_LEN))
  {
    if |c| >= SECRET_KEY_LEN { SecretLeftIff(c, 0); }
  }

  // The logged value keeps every component name, in order, exactly when each of
  // the names survives on its own.
  lemma NamesKept(v: string)
    requires AttributeOf(v).Logged? && AWS4 <= Scheme(v)
    ensures var cs, logged := Components(Params(v)), Components(Params(AttributeOf(v).value));
            && AllNamed(cs) && |logged| == |cs|
            && forall i :: 0 <= i < |cs| ==> (Name(cs[i]) <= logged[i] <==> NameSurvives(cs[i]))
  {
    LoggedComponents(v);
    var cs := Components(Params(v));
    forall i | 0 <= i < |cs|
      ensures Name(cs[i]) <= Masked(Redact(cs[i])) <==> NameSurvives(cs[i])
    {
      if Shown(Name(cs[i])) { ShownNameIff(cs[i]); } else { HiddenNameIff(cs[i]); }
    }
  }

  // Hidden components with a name of up to 20 characters, `Signature=` for one.
  lemma ShortNamesSurvive(c: string)
    requires '=' in c && !Shown(Name(c)) && |Name(c)| <= 20
    ensures NameSurvives(c)
  {
    var name := Name(c);
    assert name[|name| - 1] == '=';
    assert forall p :: 0 <= p < |name| ==> RunEnd(name, p) < |name|;
  }

  lemma NameEndsAt(c: string, e: nat)
    requires e < |c| && c[e] == '=' && forall k :: 0 <= k < e ==> c[k] != '='
    ensures '=' in c && Name(c) == c[..e + 1]
  {
  }

  lemma LostName(c: string)
    requires c == "SignedHeaders=" + seq(26, _ => 'x')
    ensures WellFormed(c) && Name(c) == "SignedHeaders=" && !NameSurvives(c)
  {
    var name := "SignedHeaders=";
    ShownNameShape(name);
    ShownNameStart(c, name);
    assert forall k :: 0 <= k < 14 ==> c[k] == name[k];
    NameEndsAt(c, 13);
    assert c[..14] == name;
    assert forall p :: 14 <= p < |c| ==> c[p] == 'x' && RunEnd(c, p) == p;
    assert MaskKeys(c) == c;
    assert IsSecretAt(c, 0);
  }

  // The value logged for v has a component that does not start with its name.
  ghost predicate LosesName(v: string) {
    && AttributeOf(v).Logged? && AWS4 <= Scheme(v)
    && var cs, logged := Components(Params(v)), Components(Params(AttributeOf(v).value));
    exists i :: 0 <= i < |cs| && i < |logged| && '=' in cs[i] && !(Name(cs[i]) <= logged[i])
  }

  lemma LosesNameIn(scheme: string, c: string)
    requires IsAws4Scheme(scheme) && WellFormed(c) && !NameSurvives(c)
    ensures LosesName(scheme + " " + c)
  {
    var v := scheme + " " + c;
    assert AllWellFormed([c]) && Join([c], SEPARATOR) == c;
    HeaderLogged(scheme, [c]);
    ComponentsOfJoin([c]);
    LogsBack(scheme, c);
    NamesKept(v);
    assert Components(Params(v))[0] == c;
  }

  // A signature whose only name is starred in the log.
  lemma NameCanBeLost()
    ensures exists v :: LosesName(v)
  {
    var scheme, c := "AWS4-HMAC-SHA256", "SignedHeaders=" + seq(26, _ => 'x');
    assert AWS4 == scheme[..5];
    LostName(c);
    LosesNameIn(scheme, c);
  }

  // The redactor panics exactly on an AWS signature of this form that has a
  // component without an equals sign.
  lemma PanicsIff(v: string)
    ensures AttributeOf(v) == Panic <==> HasSchemeAndParams(v) && AWS4 <= v && !AllNamed(Components(Params(v)))
  {
    NotLoggedIff(v);
    if HasSchemeAndParams(v) {
      var i := SpaceFrom(v, 0);
      if AWS4 <= v {
        assert forall k :: 0 <= k < |AWS4| ==> v[k] == AWS4[k] && !In(AWS4[k], Space);
        assert i >= |AWS4|;
      }
      assert AWS4 <= v <==> AWS4 <= v[..i];
    }
  }

  // Of any other scheme nothing is logged but the scheme and the length.
  lemma OtherParamsHidden(v: string, w: string)
    requires HasSchemeAndParams(v) && HasSchemeAndParams(w)
    requires Scheme(v) == Scheme(w) && !(AWS4 <= Scheme(v)) && |Params(v)| == |Params(w)|
    ensures AttributeOf(v).Logged? && AttributeOf(v) == AttributeOf(w)
  {
    SchemeAndParams(v);
    SchemeAndParams(w);
  }

  lemma CanPanic()
    ensures AttributeOf("AWS4-HMAC-SHA256 x") == Panic
  {
    var scheme, params := "AWS4-HMAC-SHA256", "x";
    assert "AWS4-HMAC-SHA256 x" == scheme + " " + params;
    assert AWS4 == scheme[..5];
    HeaderParts(scheme, params);
    assert !SeparatorAt(params, 0);
    assert Components(params) == ["x"];
    assert '=' !in ["x"][0];
  }
}
