/**
 The logged form of an Authorization header (logging/http.go,
 authorizationHeaderAttribute) for headers in any layout, in terms of their text.
 */
module AuthorizationLog {
  import opened Regex
  import opened Redaction
  import opened RedactionLocality
  import opened AuthorizationHeader
  import opened Strings

  // A component is its name, up to and with the first equals sign, and its value.
  lemma NameIs(name: string, value: string)
    requires '=' !in name
    ensures '=' in name + "=" + value
    ensures Name(name + "=" + value) == name + "=" && Val(name + "=" + value) == value
  {
    var c := name + "=" + value;
    NameEndsAt(c, |name|);
  }

  // What is logged for a component: of any name but two, five stars for the value.
  ghost predicate IsLoggedAs(c: string, logged: string) {
    forall name, value :: c == name + "=" + value && '=' !in name ==>
      logged == if name == "SignedHeaders" || name == "Credential" then Masked(c) else Masked(name + "=") + "*****"
  }

  lemma RedactedIs(c: string)
    requires '=' in c
    ensures IsLoggedAs(c, Masked(Redact(c)))
  {
    forall name, value | c == name + "=" + value && '=' !in name
      ensures Masked(Redact(c)) ==
              if name == "SignedHeaders" || name == "Credential" then Masked(c) else Masked(name + "=") + "*****"
    {
      NameIs(name, value);
      SameEnd(name, "SignedHeaders", "=");
      SameEnd(name, "Credential", "=");
      if !Shown(Name(c)) { HiddenNameIff(c); }
    }
  }

  lemma SameEnd(a: string, b: string, x: string)
    ensures a + x == b + x <==> a == b
  {
    if a + x == b + x { assert |a| == |b| && (a + x)[..|a|] == a && (b + x)[..|b|] == b; }
  }

  // In the value logged for a signature no value is shown but those two.
  lemma ValuesHidden(v: string)
    requires AttributeOf(v).Logged? && "AWS4-" <= Scheme(v)
    ensures var cs, logged := Components(Params(v)), Components(Params(AttributeOf(v).value));
            |logged| == |cs| && forall i :: 0 <= i < |cs| ==> '=' in cs[i] && IsLoggedAs(cs[i], logged[i])
  {
    LoggedComponents(v);
    var cs := Components(Params(v));
    forall i | 0 <= i < |cs|
      ensures IsLoggedAs(cs[i], Masked(Redact(cs[i])))
    {
      RedactedIs(cs[i]);
    }
  }

  predicate AllSpace(s: string) {
    forall i :: 0 <= i < |s| ==> In(s[i], Space)
  }

  predicate IsWord(s: string) {
    s != "" && forall i :: 0 <= i < |s| ==> !In(s[i], Space)
  }

  // Components written with commas, each followed by white space of any kind.
  function Written(cs: seq<string>, gaps: seq<string>): string
    requires |cs| == |gaps| + 1
  {
    if gaps == [] then cs[0] else cs[0] + "," + gaps[0] + Written(cs[1..], gaps[1..])
  }

  lemma GapSplits(v: string, i: nat, gap: string, rest: string)
    requires i <= |v| && v[i..] == gap + rest && AllSpace(gap) && (rest == "" || !In(rest[0], Space))
    ensures SkipSpace(v, i) == i + |gap| && v[i + |gap|..] == rest
  {
    assert forall k :: i <= k < |v| ==> v[k] == (gap + rest)[k - i];
    assert forall k :: i <= k < i + |gap| ==> v[k] == gap[k - i];
    assert rest != "" ==> v[i + |gap|] == rest[0];
    assert v[i + |gap|..] == (gap + rest)[|gap|..];
  }

  lemma SeparatorAtComma(c: string, gap: string, rest: string)
    requires NoSeparator(c) && gap != "" && AllSpace(gap)
    ensures SeparatorFrom(c + "," + gap + rest, 0) == |c|
  {
    var s := c + "," + gap + rest;
    assert s[|c|] == ',' && s[|c| + 1] == gap[0] && In(gap[0], Space);
    forall k | 0 <= k < |c|
      ensures !SeparatorAt(s, k)
    {
      assert !SeparatorAt(c, k) && s[k] == c[k] && (k + 1 < |c| ==> s[k + 1] == c[k + 1]);
    }
    assert SeparatorAt(s, |c|);
  }

  lemma SplitOffWritten(c: string, gap: string, rest: string)
    requires NoSeparator(c) && gap != "" && AllSpace(gap) && rest != "" && !StartsWithSpace(rest)
    ensures Components(c + "," + gap + rest) == [c] + Components(rest)
  {
    var s := c + "," + gap + rest;
    SeparatorAtComma(c, gap, rest);
    assert s[|c| + 1..] == gap + rest && s[..|c|] == c;
    GapSplits(s, |c| + 1, gap, rest);
  }

  predicate AllGaps(gaps: seq<string>) {
    forall i :: 0 <= i < |gaps| ==> gaps[i] != "" && AllSpace(gaps[i])
  }

  predicate AllComponents(cs: seq<string>) {
    forall i :: 0 <= i < |cs| ==> WellFormed(cs[i])
  }

  lemma {:induction false} ComponentsOfWritten(cs: seq<string>, gaps: seq<string>)
    requires |cs| == |gaps| + 1 && AllGaps(gaps) && AllComponents(cs)
    ensures Components(Written(cs, gaps)) == cs
    ensures Written(cs, gaps) != "" && !StartsWithSpace(Written(cs, gaps))
  {
    assert WellFormed(cs[0]);
    if gaps == [] {
      assert SeparatorFrom(cs[0], 0) == |cs[0]|;
    } else {
      var rest := Written(cs[1..], gaps[1..]);
      ComponentsOfWritten(cs[1..], gaps[1..]);
      SplitOffWritten(cs[0], gaps[0], rest);
      assert Written(cs, gaps)[0] == cs[0][0];
      assert cs == [cs[0]] + cs[1..];
    }
  }

  lemma WordSplits(scheme: string, gap: string, params: string)
    requires IsWord(scheme) && gap != "" && AllSpace(gap) && params != "" && !StartsWithSpace(params)
    ensures SplitScheme(scheme + gap + params) == [scheme, params]
  {
    var v := scheme + gap + params;
    assert v[|scheme|] == gap[0] && v[..|scheme|] == scheme && v[|scheme|..] == gap + params;
    assert forall k :: 0 <= k < |scheme| ==> v[k] == scheme[k];
    assert SpaceFrom(v, 0) == |scheme|;
    GapSplits(v, |scheme|, gap, params);
  }

  lemma SignatureParsed(scheme: string, gap: string, cs: seq<string>, gaps: seq<string>)
    requires IsWord(scheme) && "AWS4-" <= scheme && gap != "" && AllSpace(gap)
    requires |cs| == |gaps| + 1 && AllGaps(gaps) && AllComponents(cs)
    ensures AllNamed(cs)
    ensures AttributeOf(scheme + gap + Written(cs, gaps)) ==
            Logged(scheme + " " + Join(MaskEach(RedactAll(cs)), ", "))
  {
    ComponentsOfWritten(cs, gaps);
    WordSplits(scheme, gap, Written(cs, gaps));
    assert forall i :: 0 <= i < |cs| ==> WellFormed(cs[i]);
    MaskedJoin(RedactAll(cs), SEPARATOR);
  }

  // A signature in any layout is logged as its scheme, one space and its components
  // so, joined by a comma and a space.
  lemma SignatureLogged(scheme: string, gap: string, cs: seq<string>, gaps: seq<string>)
    requires IsWord(scheme) && "AWS4-" <= scheme && gap != "" && AllSpace(gap)
    requires |cs| == |gaps| + 1 && AllGaps(gaps) && AllComponents(cs)
    ensures exists logged: seq<string> ::
              && |logged| == |cs| && (forall i :: 0 <= i < |cs| ==> IsLoggedAs(cs[i], logged[i]))
              && AttributeOf(scheme + gap + Written(cs, gaps)) == Logged(scheme + " " + Join(logged, ", "))
  {
    SignatureParsed(scheme, gap, cs, gaps);
    var logged := MaskEach(RedactAll(cs));
    forall i | 0 <= i < |cs|
      ensures IsLoggedAs(cs[i], logged[i])
    {
      RedactedIs(cs[i]);
    }
  }

  // Of any other scheme a star is logged for each character of the parameters.
  lemma OtherLogged(scheme: string, gap: string, params: string)
    requires IsWord(scheme) && !("AWS4-" <= scheme) && gap != "" && AllSpace(gap)
    requires params != "" && !StartsWithSpace(params)
    ensures exists stars: string ::
              && |stars| == |params| && (forall k :: 0 <= k < |stars| ==> stars[k] == '*')
              && AttributeOf(scheme + gap + params) == Logged(scheme + " " + stars)
  {
    WordSplits(scheme, gap, params);
    assert |Stars(|params|)| == |params|;
  }
}
