/**
 Assuming a chain of roles (credentials.go, assumeRoleCredentialsProvider): every
 role gets a provider that signs with the cache of the role before it, and a
 cache of its own. The token service and the clock are an arbitrary environment.
 */
module RoleChain {

  import opened Wrappers
  import opened RoleChainRuns
  import opened RoleChainSetup

  /** The token service and the clock. */
  class Environment {
    const svc: Service
    var calls: seq<Call>
    var ticks: nat

    constructor (svc: Service)
      ensures this.svc == svc && Now() == World([], 0)
    {
      this.svc := svc;
      calls := [];
      ticks := 0;
    }

    function Now(): World
      reads this
    {
      World(calls, ticks)
    }

    method AssumeRole(call: Call) returns (r: Option<Credentials>)
      modifies this`calls
      ensures calls == old(calls) + [call]
      ensures r == if svc.Granted(|old(calls)|) then Some(Assumed(|old(calls)|)) else None
    {
      var n := |calls|;
      calls := calls + [call];
      return if svc.Granted(n) then Some(Assumed(n)) else None;
    }

    method ReadClock() returns (now: int)
      modifies this`ticks
      ensures now == svc.clock(old(ticks)) && ticks == old(ticks) + 1
    {
      now := svc.clock(ticks);
      ticks := ticks + 1;
    }
  }

  /** The provider of one role: its client signs with a cache, or with the base credentials. */
  datatype AssumeRoleProvider = AssumeRoleProvider(link: nat, role: Role, signer: CredentialsCache?)

  class CredentialsCache {
    const provider: AssumeRoleProvider
    var stored: Option<Credentials>
    ghost const tower: set<CredentialsCache>  // this cache and all below it
    ghost const path: seq<Role>  // the roles up to this one

    constructor (provider: AssumeRoleProvider)
      requires ValidProvider(provider)
      ensures this.provider == provider && stored == None
      ensures Valid() && fresh(this) && tower == {this} + Below(provider) && path == Path(provider)
    {
      this.provider := provider;
      stored := None;
      tower := {this} + Below(provider);
      path := Path(provider);
    }

    ghost predicate Valid()
      decreases provider.link, 1
    {
      && ValidProvider(provider)
      && this !in Below(provider)
      && tower == {this} + Below(provider)
      && path == Path(provider)
      && |path| == provider.link + 1
    }
  }

  ghost function Below(p: AssumeRoleProvider): set<CredentialsCache> {
    Tower(p.signer)
  }

  ghost function Tower(c: CredentialsCache?): set<CredentialsCache> {
    if c == null then {} else c.tower
  }

  ghost function Path(p: AssumeRoleProvider): seq<Role> {
    PathTo(p.signer) + [p.role]
  }

  ghost function PathTo(c: CredentialsCache?): seq<Role> {
    if c == null then [] else c.path
  }

  ghost predicate ValidProvider(p: AssumeRoleProvider)
    decreases p.link, 0
  {
    if p.signer == null then p.link == 0
    else p.link == p.signer.provider.link + 1 && p.signer.Valid()
  }

  // What a cache and the caches below it hold, the lowest first.
  ghost function Stores(c: CredentialsCache?): (r: seq<Store>)
    requires c != null ==> c.Valid()
    reads Tower(c)
    ensures |r| == |PathTo(c)|
    decreases if c == null then 0 else c.provider.link + 1
  {
    if c == null then []
    else
      assert ValidProvider(c.provider);
      Stores(c.provider.signer) + [c.stored]
  }

  method RetrieveProvider(p: AssumeRoleProvider, env: Environment) returns (r: Option<Credentials>)
    requires ValidProvider(p)
    modifies env, Below(p)
    ensures Got(r, Stores(p.signer), env.Now()) ==
            FromProvider(env.svc, Path(p), old(Stores(p.signer)), old(env.Now()))
    decreases p.link, 0
  {
    assert Path(p)[..|PathTo(p.signer)|] == PathTo(p.signer);
    var signer := Base;
    if p.signer != null {
      var c := Retrieve(p.signer, env);
      if c.None? {
        return None;
      }
      signer := c.value;
    }
    r := env.AssumeRole(Call(p.link, p.role, signer));
  }

  method Retrieve(c: CredentialsCache, env: Environment) returns (r: Option<Credentials>)
    requires c.Valid()
    modifies env, c.tower
    ensures Got(r, Stores(c), env.Now()) == FromCache(env.svc, c.path, old(Stores(c)), old(env.Now()))
    decreases c.provider.link, 1
  {
    assert ValidProvider(c.provider);
    ghost var stores, below := Stores(c), Stores(c.provider.signer);
    assert stores[..|stores| - 1] == below && stores[|stores| - 1] == c.stored;
    if c.stored.Some? {
      var now := env.ReadClock();
      if !env.svc.Expired(c.stored.value, now) {
        return c.stored;
      }
    }
    assert env.Now() == Looked(c.stored, old(env.Now()));
    r := RetrieveProvider(c.provider, env);
    ghost var after := Stores(c.provider.signer);
    if r.Some? {
      c.stored := r;
    }
    assert Stores(c) == after + [if r.Some? then r else old(c.stored)];
  }

  // A null cache: no role to assume, and no provider.
  datatype Outcome = MissingARN(number: nat, total: nat) | CannotAssume(role: Role) | Chain(creds: CredentialsCache?)

  // r is the outcome of this setup, and the caches and the environment are as it leaves them.
  ghost predicate IsOutcome(r: Outcome, env: Environment, setup: Setup, roles: seq<Role>)
    reads env, if r.Chain? then Tower(r.creds) else {}
  {
    && env.Now() == setup.world
    && match setup
       case MissingARN(number, _) => r == Outcome.MissingARN(number, |roles|)
       case Refused(link, _) => link < |roles| && r == CannotAssume(roles[link])
       case Going(stores, _) => r.Chain? && IsChain(r.creds, roles) && Stores(r.creds) == stores
  }

  ghost predicate IsChain(creds: CredentialsCache?, roles: seq<Role>) {
    && (creds == null <==> roles == [])
    && (creds != null ==> creds.Valid())
    && PathTo(creds) == roles
  }

  method AssumeRoleCredentialsProvider(roles: seq<Role>, env: Environment) returns (r: Outcome)
    modifies env
    ensures IsOutcome(r, env, SetUp(env.svc, roles, |roles|, old(env.Now())), roles)
    ensures r.Chain? ==> fresh(Tower(r.creds))
  {
    ghost var start := env.Now();
    var total := |roles|;
    var creds: CredentialsCache? := null;
    for i := 0 to |roles|
      invariant IsChain(creds, roles[..i]) && fresh(Tower(creds))
      invariant SetUp(env.svc, roles, i, start) == Going(Stores(creds), env.Now())
    {
      SetUpTurn(env.svc, roles, i, start);
      var ar := roles[i];
      if ar.arn == "" {
        return Outcome.MissingARN(i + 1, total);
      }
      var appCreds := AssumeRoleProvider(i, ar, creds);
      assert Path(appCreds) == roles[..i + 1];
      var c := RetrieveProvider(appCreds, env);
      if c.None? {
        return CannotAssume(ar);
      }
      creds := new CredentialsCache(appCreds);
    }
    assert roles[..|roles|] == roles;
    return Chain(creds);
  }

  // The configuration then asks the resulting provider for credentials once
  // (aws_config.go), which fills the last cache.
  method SetUpAndRetrieve(roles: seq<Role>, env: Environment) returns (r: Option<Credentials>)
    modifies env
    ensures var setup := SetUp(env.svc, roles, |roles|, old(env.Now()));
            if !setup.Going? then r == None && env.Now() == setup.world
            else if roles == [] then r == Some(Base) && env.Now() == setup.world
            else
              var g := FromCache(env.svc, roles, setup.stores, setup.world);
              r == g.creds && env.Now() == g.world
  {
    var setup := AssumeRoleCredentialsProvider(roles, env);
    if !setup.Chain? {
      return None;
    }
    if setup.creds == null {
      return Some(Base);
    }
    r := Retrieve(setup.creds, env);
  }
}
