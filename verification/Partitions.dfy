/**
 AWS partitions: the lookup of endpoints/partition.go over the table of
 endpoints/endpoints_gen.go, and the region check of validation/region.go.
 */
module Partitions {
  import opened Regex
  import opened Strings

  // The keys of the partition table.
  datatype PartitionID = Aws | AwsCn | AwsEusc | AwsIso | AwsIsoB | AwsIsoE | AwsIsoF | AwsUsGov

  // Of a Partition, the fields the lookup reads.
  datatype Partition = Partition(id: PartitionID, regionRegex: Regex, regions: set<string>)

  datatype Lookup = Found(p: Partition) | NotFound

  // How the pattern of each partition starts.
  function PrefixRegex(id: PartitionID): Regex {
    match id
    case Aws =>
      Alt([Lit("us"), Lit("eu"), Lit("ap"), Lit("sa"), Lit("ca"), Lit("me"), Lit("af"), Lit("il"), Lit("mx")])
    case AwsCn => Lit("cn")
    case AwsEusc => Cat(Lit("eusc-"), Alt([Lit("de")]))
    case AwsIso => Lit("us-iso")
    case AwsIsoB => Lit("us-isob")
    case AwsIsoE => Lit("eu-isoe")
    case AwsIsoF => Lit("us-isof")
    case AwsUsGov => Lit("us-gov")
  }

  // And how it goes on: `\-\w+\-\d+`, anchored at both ends.
  function RegionPattern(prefix: Regex): Regex {
    Cat(prefix, Cat(Lit("-"), Cat(AtLeast(1, Word), Cat(Lit("-"), AtLeast(1, Digit)))))
  }

  // A region ID in its three parts.
  datatype RegionName = RegionName(prefix: string, direction: string, number: string) {
    function ID(): string {
      prefix + "-" + direction + "-" + number
    }
  }

  // The region IDs each partition lists.
  function RegionNames(id: PartitionID): set<RegionName> {
    match id
    case Aws => {
        RegionName("af", "south", "1"), RegionName("ap", "east", "1"), RegionName("ap", "east", "2"),
        RegionName("ap", "northeast", "1"), RegionName("ap", "northeast", "2"),
        RegionName("ap", "northeast", "3"), RegionName("ap", "south", "1"), RegionName("ap", "south", "2"),
        RegionName("ap", "southeast", "1"), RegionName("ap", "southeast", "2"),
        RegionName("ap", "southeast", "3"), RegionName("ap", "southeast", "4"),
        RegionName("ap", "southeast", "5"), RegionName("ap", "southeast", "6"),
        RegionName("ap", "southeast", "7"), RegionName("ca", "central", "1"), RegionName("ca", "west", "1"),
        RegionName("eu", "central", "1"), RegionName("eu", "central", "2"), RegionName("eu", "north", "1"),
        RegionName("eu", "south", "1"), RegionName("eu", "south", "2"), RegionName("eu", "west", "1"),
        RegionName("eu", "west", "2"), RegionName("eu", "west", "3"), RegionName("il", "central", "1"),
        RegionName("me", "central", "1"), RegionName("me", "south", "1"), RegionName("mx", "central", "1"),
        RegionName("sa", "east", "1"), RegionName("us", "east", "1"), RegionName("us", "east", "2"),
        RegionName("us", "west", "1"), RegionName("us", "west", "2") }
    case AwsCn => {RegionName("cn", "north", "1"), RegionName("cn", "northwest", "1")}
    case AwsEusc => {RegionName("eusc-de", "east", "1")}
    case AwsIso => {RegionName("us-iso", "east", "1"), RegionName("us-iso", "west", "1")}
    case AwsIsoB => {RegionName("us-isob", "east", "1"), RegionName("us-isob", "west", "1")}
    case AwsIsoE => {RegionName("eu-isoe", "west", "1")}
    case AwsIsoF => {RegionName("us-isof", "east", "1"), RegionName("us-isof", "south", "1")}
    case AwsUsGov => {RegionName("us-gov", "east", "1"), RegionName("us-gov", "west", "1")}
  }

  function PartitionOf(id: PartitionID): Partition {
    Partition(id, RegionPattern(PrefixRegex(id)), set n | n in RegionNames(id) :: n.ID())
  }

  const TABLE_KEYS: set<PartitionID> := {Aws, AwsCn, AwsEusc, AwsIso, AwsIsoB, AwsIsoE, AwsIsoF, AwsUsGov}

  // The partitions of these keys, each once, in some order.
  ghost predicate IsEnumeration(ps: seq<Partition>, keys: set<PartitionID>) {
    && (forall p :: p in ps <==> p.id in keys && p == PartitionOf(p.id))
    && (forall i, j :: 0 <= i < j < |ps| ==> ps[i] != ps[j])
  }

  // Ranging over the map visits its entries in an order of its own choice.
  method DefaultPartitions() returns (ps: seq<Partition>)
    ensures IsEnumeration(ps, TABLE_KEYS)
  {
    ps := [];
    var left := TABLE_KEYS;
    while left != {}
      invariant left <= TABLE_KEYS && IsEnumeration(ps, TABLE_KEYS - left)
      decreases |left|
    {
      var id :| id in left;
      ps := ps + [PartitionOf(id)];
      left := left - {id};
    }
  }

  // p lists the region, or its pattern matches it.
  predicate Covers(p: Partition, region: string) {
    region in p.regions || Matches(p.regionRegex, region)
  }

  ghost predicate IsFirstCovering(ps: seq<Partition>, region: string, r: Lookup) {
    match r
    case Found(p) => exists i :: 0 <= i < |ps| && ps[i] == p && (region in p.regions || Matches(p.regionRegex, region)) &&
                                 forall j :: 0 <= j < i ==> !Covers(ps[j], region)
    case NotFound => forall p :: p in ps ==> region !in p.regions && !Matches(p.regionRegex, region)
  }

  method PartitionForRegion(ps: seq<Partition>, regionID: string) returns (r: Lookup)
    ensures IsFirstCovering(ps, regionID, r)
  {
    for i := 0 to |ps|
      invariant forall j :: 0 <= j < i ==> !Covers(ps[j], regionID)
    {
      if Covers(ps[i], regionID) {
        return Found(ps[i]);
      }
    }
    return NotFound;
  }

  // The region is in some partition's list.
  predicate Listed(region: string) {
    exists id :: id in TABLE_KEYS && region in PartitionOf(id).regions
  }

  datatype RegionError = Supported | InvalidRegion(region: string)

  method SupportedRegion(region: string) returns (err: RegionError)
    ensures err == if Listed(region) then Supported else InvalidRegion(region)
  {
    var ps := DefaultPartitions();
    if exists p :: p in ps && region in p.regions {
      return Supported;
    }
    return InvalidRegion(region);
  }

  // ------------------------------------------- the patterns do not overlap

  // What comes before the last two dashes.
  function Stem(s: string): string {
    var j := LastIndex(s, '-');
    if j < 0 then ""
    else
      var i := LastIndex(s[..j], '-');
      if i < 0 then "" else s[..i]
  }

  lemma StemOf(a: string, w: string, d: string)
    requires AllIn(w, Word) && AllIn(d, Digit)
    ensures Stem(a + "-" + w + "-" + d) == a
  {
    var s := a + "-" + w + "-" + d;
    var i, j := |a|, |a| + 1 + |w|;
    assert s[j] == '-' && forall k :: j < k < |s| ==> s[k] == d[k - j - 1];
    assert LastIndex(s, '-') == j;
    var t := s[..j];
    assert t[i] == '-' && forall k :: i < k < |t| ==> t[k] == w[k - i - 1];
    assert LastIndex(t, '-') == i;
    assert s[..i] == a;
  }

  lemma CatMatches(r1: Regex, r2: Regex, s1: string, s2: string)
    requires Matches(r1, s1) && Matches(r2, s2)
    ensures Matches(Cat(r1, r2), s1 + s2)
  {
    var s := s1 + s2;
    assert s[..|s1|] == s1 && s[|s1|..] == s2;
  }

  lemma CatSplits(r1: Regex, r2: Regex, s: string) returns (s1: string, s2: string)
    requires Matches(Cat(r1, r2), s)
    ensures s == s1 + s2 && Matches(r1, s1) && Matches(r2, s2)
  {
    var i :| 0 <= i <= |s| && Matches(r1, s[..i]) && Matches(r2, s[i..]);
    s1, s2 := s[..i], s[i..];
  }

  // `-` and one or more of a class, then what follows.
  lemma DashMatches(k: Class, after: Regex, w: string, rest: string)
    requires |w| >= 1 && AllIn(w, k) && Matches(after, rest)
    ensures Matches(Cat(Lit("-"), Cat(AtLeast(1, k), after)), "-" + (w + rest))
  {
    assert Matches(AtLeast(1, k), w);
    CatMatches(AtLeast(1, k), after, w, rest);
    CatMatches(Lit("-"), Cat(AtLeast(1, k), after), "-", w + rest);
  }

  lemma DashSplits(k: Class, after: Regex, s: string) returns (w: string, rest: string)
    requires Matches(Cat(Lit("-"), Cat(AtLeast(1, k), after)), s)
    ensures s == "-" + (w + rest) && |w| >= 1 && AllIn(w, k) && Matches(after, rest)
  {
    var dash, tail := CatSplits(Lit("-"), Cat(AtLeast(1, k), after), s);
    w, rest := CatSplits(AtLeast(1, k), after, tail);
  }

  lemma NumberMatches(d: string)
    requires |d| >= 1 && AllIn(d, Digit)
    ensures Matches(Cat(Lit("-"), AtLeast(1, Digit)), "-" + d)
  {
    CatMatches(Lit("-"), AtLeast(1, Digit), "-", d);
  }

  lemma NumberSplits(s: string) returns (d: string)
    requires Matches(Cat(Lit("-"), AtLeast(1, Digit)), s)
    ensures s == "-" + d && |d| >= 1 && AllIn(d, Digit)
  {
    var dash, rest := CatSplits(Lit("-"), AtLeast(1, Digit), s);
    d := rest;
  }

  // A region pattern matches the texts made of a prefix it accepts, a word and a
  // number, joined by dashes.
  lemma RegionPatternMatches(prefix: Regex, a: string, w: string, d: string)
    requires Matches(prefix, a) && |w| >= 1 && AllIn(w, Word) && |d| >= 1 && AllIn(d, Digit)
    ensures Matches(RegionPattern(prefix), a + "-" + w + "-" + d)
  {
    Regroup(a, w, d);
    NumberMatches(d);
    DashMatches(Word, Cat(Lit("-"), AtLeast(1, Digit)), w, "-" + d);
    CatMatches(prefix, RegionPattern(prefix).second, a, "-" + (w + ("-" + d)));
  }

  // And no others.
  lemma RegionPatternSplits(prefix: Regex, region: string) returns (a: string, w: string, d: string)
    requires Matches(RegionPattern(prefix), region)
    ensures region == a + "-" + w + "-" + d && Matches(prefix, a)
    ensures |w| >= 1 && AllIn(w, Word) && |d| >= 1 && AllIn(d, Digit)
  {
    var tail, number;
    a, tail := CatSplits(prefix, RegionPattern(prefix).second, region);
    w, number := DashSplits(Word, Cat(Lit("-"), AtLeast(1, Digit)), tail);
    d := NumberSplits(number);
    Regroup(a, w, d);
  }

  lemma Regroup(a: string, w: string, d: string)
    ensures a + ("-" + (w + ("-" + d))) == a + "-" + w + "-" + d
  {
  }

  // So the prefix is what comes before the last two dashes.
  lemma StemMatches(prefix: Regex, region: string)
    requires Matches(RegionPattern(prefix), region)
    ensures Matches(prefix, Stem(region))
  {
    var a, w, d := RegionPatternSplits(prefix, region);
    StemOf(a, w, d);
  }

  // The one partition whose pattern can match a region with this stem.
  function Owner(stem: string): PartitionID {
    if |stem| == 2 then (if stem == "cn" then AwsCn else Aws)
    else if stem == "eusc-de" then AwsEusc
    else if stem == "us-iso" then AwsIso
    else if stem == "us-isob" then AwsIsoB
    else if stem == "eu-isoe" then AwsIsoE
    else if stem == "us-isof" then AwsIsoF
    else AwsUsGov
  }

  lemma OwnerOfPrefix(id: PartitionID, a: string)
    requires Matches(PrefixRegex(id), a)
    ensures Owner(a) == id
  {
    match id
    case Aws =>
      var c :| c in PrefixRegex(Aws).choices && Matches(c, a);
    case AwsEusc =>
      var s1, s2 := CatSplits(Lit("eusc-"), Alt([Lit("de")]), a);
      assert a == "eusc-de";
    case _ =>
  }

  lemma MatchedByOwner(id: PartitionID, region: string)
    requires Matches(PartitionOf(id).regionRegex, region)
    ensures id == Owner(Stem(region))
  {
    StemMatches(PrefixRegex(id), region);
    OwnerOfPrefix(id, Stem(region));
  }

  // --------------------------- every listed region matches its own pattern

  predicate IsDirection(w: string) {
    w in {"north", "south", "east", "west", "central", "northeast", "northwest", "southeast"}
  }

  lemma DirectionIsWord(w: string)
    requires IsDirection(w)
    ensures |w| >= 1 && AllIn(w, Word)
  {
  }

  // The text of a prefix that can start a listed region.
  predicate IsPrefixText(id: PartitionID, a: string) {
    match id
    case Aws => a in {"us", "eu", "ap", "sa", "ca", "me", "af", "il", "mx"}
    case AwsCn => a == "cn"
    case AwsEusc => a == "eusc-de"
    case AwsIso => a == "us-iso"
    case AwsIsoB => a == "us-isob"
    case AwsIsoE => a == "eu-isoe"
    case AwsIsoF => a == "us-isof"
    case AwsUsGov => a == "us-gov"
  }

  lemma PrefixAccepts(id: PartitionID, a: string)
    ensures Matches(PrefixRegex(id), a) <==> IsPrefixText(id, a)
  {
    match id
    case Aws =>
      if IsPrefixText(Aws, a) { assert Lit(a) in PrefixRegex(Aws).choices; }
    case AwsEusc =>
      assert Lit("de") in [Lit("de")];
      CatMatches(Lit("eusc-"), Alt([Lit("de")]), "eusc-", "de");
      assert "eusc-de" == "eusc-" + "de";
      if Matches(PrefixRegex(id), a) {
        var s1, s2 := CatSplits(Lit("eusc-"), Alt([Lit("de")]), a);
      }
    case _ =>
  }

  predicate WellNamed(id: PartitionID, n: RegionName) {
    IsPrefixText(id, n.prefix) && IsDirection(n.direction) && |n.number| == 1 && In(n.number[0], Digit)
  }

  lemma NamesWellNamed(id: PartitionID, n: RegionName)
    requires n in RegionNames(id)
    ensures WellNamed(id, n)
  {
  }

  // The regions of one name, numbered from 1.
  function Numbers(prefix: string, direction: string): set<string> {
    var name := (prefix, direction);
    if name == ("ap", "southeast") then {"1", "2", "3", "4", "5", "6", "7"}
    else if name in {("ap", "northeast"), ("eu", "west")} then {"1", "2", "3"}
    else if name in {("ap", "east"), ("ap", "south"), ("eu", "central"), ("eu", "south"), ("us", "east"), ("us", "west")}
    then {"1", "2"}
    else if name in {("af", "south"), ("ca", "central"), ("ca", "west"), ("eu", "north"), ("il", "central"),
                     ("me", "central"), ("me", "south"), ("mx", "central"), ("sa", "east"),
                     ("cn", "north"), ("cn", "northwest"), ("eusc-de", "east"), ("us-iso", "east"), ("us-iso", "west"),
                     ("us-isob", "east"), ("us-isob", "west"), ("eu-isoe", "west"), ("us-isof", "east"),
                     ("us-isof", "south"), ("us-gov", "east"), ("us-gov", "west")} then {"1"}
    else {}
  }

  // The tables, by the prefix of the partition and by these numbers.
  lemma NamesAre(id: PartitionID, n: RegionName)
    ensures n in RegionNames(id) <==> IsPrefixText(id, n.prefix) && n.number in Numbers(n.prefix, n.direction)
  {
  }

  lemma ListedName(region: string) returns (id: PartitionID, n: RegionName)
    requires Listed(region)
    ensures IsPrefixText(id, n.prefix) && n.number in Numbers(n.prefix, n.direction) && region == n.ID()
  {
    id :| id in TABLE_KEYS && region in PartitionOf(id).regions;
    n :| n in RegionNames(id) && region == n.ID();
    NamesAre(id, n);
  }

  lemma NameListed(id: PartitionID, n: RegionName)
    requires IsPrefixText(id, n.prefix) && n.number in Numbers(n.prefix, n.direction)
    ensures Listed(n.ID())
  {
    NamesAre(id, n);
    assert n.ID() in PartitionOf(id).regions;
  }

  // A region is listed exactly when it is written so.
  lemma ListedIff(region: string)
    ensures Listed(region) <==>
            exists id, a, w, d :: IsPrefixText(id, a) && d in Numbers(a, w) && region == a + "-" + w + "-" + d
  {
    if Listed(region) {
      var id, n := ListedName(region);
    }
    if id, a, w, d :| IsPrefixText(id, a) && d in Numbers(a, w) && region == a + "-" + w + "-" + d {
      NameListed(id, RegionName(a, w, d));
    }
  }

  lemma NameMatches(id: PartitionID, n: RegionName)
    requires WellNamed(id, n)
    ensures Matches(RegionPattern(PrefixRegex(id)), n.ID())
  {
    DirectionIsWord(n.direction);
    PrefixAccepts(id, n.prefix);
    RegionPatternMatches(PrefixRegex(id), n.prefix, n.direction, n.number);
  }

  lemma ListedMatches(id: PartitionID, region: string)
    requires region in PartitionOf(id).regions
    ensures Matches(PartitionOf(id).regionRegex, region)
  {
    var n :| n in RegionNames(id) && region == n.ID();
    NamesWellNamed(id, n);
    NameMatches(id, n);
  }

  // ------------------------------------------------------------- the lookup

  // At most one partition of the table covers a region: the one its text names.
  lemma CoveredByOwner(p: Partition, region: string)
    requires p == PartitionOf(p.id) && Covers(p, region)
    ensures p.id == Owner(Stem(region)) && Matches(p.regionRegex, region)
  {
    if region in p.regions {
      ListedMatches(p.id, region);
    }
    MatchedByOwner(p.id, region);
  }

  lemma PatternsDisjoint(id: PartitionID, other: PartitionID, region: string)
    requires Covers(PartitionOf(id), region) && Covers(PartitionOf(other), region)
    ensures id == other
  {
    CoveredByOwner(PartitionOf(id), region);
    CoveredByOwner(PartitionOf(other), region);
  }

  // The answer itself: the partition named by the region's text if its pattern
  // matches, and none otherwise. Being listed adds nothing.
  lemma LookupAnswer(ps: seq<Partition>, region: string, r: Lookup)
    requires IsEnumeration(ps, TABLE_KEYS) && IsFirstCovering(ps, region, r)
    ensures var p := PartitionOf(Owner(Stem(region)));
            r == if Matches(p.regionRegex, region) then Found(p) else NotFound
  {
    forall q | q in ps && Covers(q, region)
      ensures q == PartitionOf(Owner(Stem(region))) && Matches(q.regionRegex, region)
    {
      CoveredByOwner(q, region);
    }
  }

  // The order in which the map is visited never shows: every order gives the
  // same answer for every string.
  lemma OrderIrrelevant(ps: seq<Partition>, qs: seq<Partition>, region: string, r: Lookup, t: Lookup)
    requires IsEnumeration(ps, TABLE_KEYS) && IsEnumeration(qs, TABLE_KEYS)
    requires IsFirstCovering(ps, region, r) && IsFirstCovering(qs, region, t)
    ensures r == t
  {
    LookupAnswer(ps, region, r);
    LookupAnswer(qs, region, t);
  }

  // A region is found in a partition exactly when it is written as one of the
  // partition's prefixes, a word and a number, joined by dashes.
  lemma FoundIff(ps: seq<Partition>, region: string, r: Lookup, id: PartitionID)
    requires IsEnumeration(ps, TABLE_KEYS) && IsFirstCovering(ps, region, r)
    ensures r == Found(PartitionOf(id)) <==>
            exists a, w, d :: IsPrefixText(id, a) && |w| >= 1 && AllIn(w, Word) && |d| >= 1 && AllIn(d, Digit)
                              && region == a + "-" + w + "-" + d
    ensures r.Found? ==> r.p == PartitionOf(r.p.id)
  {
    LookupAnswer(ps, region, r);
    if r == Found(PartitionOf(id)) {
      var a, w, d := RegionPatternSplits(PrefixRegex(id), region);
      PrefixAccepts(id, a);
    }
    if a, w, d :| IsPrefixText(id, a) && |w| >= 1 && AllIn(w, Word) && |d| >= 1 && AllIn(d, Digit)
                  && region == a + "-" + w + "-" + d {
      PrefixAccepts(id, a);
      RegionPatternMatches(PrefixRegex(id), a, w, d);
      MatchedByOwner(id, region);
    }
  }

  // A supported region is found, in a partition that lists it.
  lemma SupportedIsFound(ps: seq<Partition>, region: string, r: Lookup)
    requires IsEnumeration(ps, TABLE_KEYS) && IsFirstCovering(ps, region, r)
    ensures Listed(region) <==> r.Found? && region in r.p.regions
  {
    if id :| id in TABLE_KEYS && region in PartitionOf(id).regions {
      CoveredByOwner(PartitionOf(id), region);
      LookupAnswer(ps, region, r);
    }
    if r.Found? && region in r.p.regions {
      assert r.p in ps;
    }
  }

  // The converse fails: a pattern accepts regions that no table lists.
  lemma FoundButNotSupported()
    ensures exists region :: !Listed(region) && Matches(PartitionOf(Aws).regionRegex, region)
  {
    var n := RegionName("us", "east", "17");
    DirectionIsWord("east");
    PrefixAccepts(Aws, "us");
    RegionPatternMatches(PrefixRegex(Aws), "us", "east", "17");
    assert n.ID()[|n.ID()| - 2] == '1';
    forall id | id in TABLE_KEYS
      ensures n.ID() !in PartitionOf(id).regions
    {
      if n.ID() in PartitionOf(id).regions { ListedNumber(id, n.ID()); }
    }
  }

  lemma ListedNumber(id: PartitionID, region: string)
    requires region in PartitionOf(id).regions
    ensures |region| >= 2 && region[|region| - 2] == '-'
  {
    var m :| m in RegionNames(id) && region == m.ID();
    NamesWellNamed(id, m);
  }
}
