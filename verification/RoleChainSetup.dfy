/**
 Setting a whole chain up, on values: every role is requested once past the cache
 it is about to get (credentials.go, assumeRoleCredentialsProvider). What holds in
 every run, and the exact requests of an undisturbed and of the longest run.
 */
module RoleChainSetup {

  import opened Wrappers
  import opened RoleChainRuns

  // Role number `number` has no ARN; the role of this link was not granted; or all
  // roles are set up, and the caches hold this.
  datatype Setup =
    | MissingARN(number: nat, world: World)
    | Refused(link: nat, world: World)
    | Going(stores: seq<Store>, world: World)

  // One turn of the loop, for role i.
  function Turn(svc: Service, roles: seq<Role>, i: nat, before: Setup): (r: Setup)
    requires i < |roles| && (before.Going? ==> |before.stores| == i)
    ensures r.Going? ==> |r.stores| == i + 1
  {
    if !before.Going? then before
    else if roles[i].arn == "" then MissingARN(i + 1, before.world)
    else
      var g := FromProvider(svc, roles[..i + 1], before.stores, before.world);
      if g.creds.None? then Refused(i, g.world) else Going(g.stores + [None], g.world)
  }

  // The first n turns.
  function SetUp(svc: Service, roles: seq<Role>, n: nat, world: World): (r: Setup)
    requires n <= |roles|
    ensures r.Going? ==> |r.stores| == n
    ensures r.MissingARN? ==> 0 < r.number <= n && roles[r.number - 1].arn == ""
    ensures r.Refused? ==> r.link < n
  {
    if n == 0 then Going([], world) else Turn(svc, roles, n - 1, SetUp(svc, roles, n - 1, world))
  }

  // Once stopped, stopped.
  lemma {:induction false} SetUpStops(svc: Service, roles: seq<Role>, n: nat, m: nat, world: World)
    requires n <= m <= |roles| && !SetUp(svc, roles, n, world).Going?
    ensures SetUp(svc, roles, m, world) == SetUp(svc, roles, n, world)
  {
    if n < m { SetUpStops(svc, roles, n, m - 1, world); }
  }

  // What a turn that is the last one leaves is what the whole setup leaves.
  lemma SetUpTurn(svc: Service, roles: seq<Role>, i: nat, world: World)
    requires i < |roles|
    ensures var r := Turn(svc, roles, i, SetUp(svc, roles, i, world));
            SetUp(svc, roles, i + 1, world) == r && (!r.Going? ==> SetUp(svc, roles, |roles|, world) == r)
  {
    if !SetUp(svc, roles, i + 1, world).Going? {
      SetUpStops(svc, roles, i + 1, |roles|, world);
    }
  }

  // How many roles come before the first without an ARN.
  function Named(roles: seq<Role>): (n: nat)
    ensures n <= |roles| && (n < |roles| ==> roles[n].arn == "")
    ensures forall i :: 0 <= i < n ==> roles[i].arn != ""
  {
    if roles == [] || roles[0].arn == "" then 0 else 1 + Named(roles[1..])
  }

  // n(n+1)/2: the most requests n links can need.
  function Triangle(n: nat): nat {
    if n == 0 then 0 else Triangle(n - 1) + n
  }

  // The calls from number `from` on are for the first n roles only.
  ghost predicate ForRoles(calls: seq<Call>, from: nat, roles: seq<Role>, n: nat)
    requires n <= |roles|
  {
    forall k :: from <= k < |calls| ==> calls[k].link < n && calls[k].role == roles[calls[k].link]
  }

  // A request for this link was granted.
  ghost predicate Obtained(svc: Service, calls: seq<Call>, from: nat, link: nat) {
    exists k :: from <= k < |calls| && calls[k].link == link && svc.Granted(k)
  }

  ghost predicate LastDenied(svc: Service, calls: seq<Call>, from: nat) {
    |calls| > from && !svc.Granted(|calls| - 1)
  }

  // -------------------------------------------------------------- one turn

  // Requests from number `start` on: one for each link from lo up to, not
  // including, top, all granted but possibly the last.
  ghost predicate Steps(svc: Service, calls: seq<Call>, start: nat, roles: seq<Role>, lo: nat, top: nat) {
    && lo < top <= |roles| && |calls| == start + (top - lo)
    && (forall k :: start <= k < |calls| ==> calls[k].link == lo + (k - start) && calls[k].role == roles[calls[k].link])
    && (forall k :: start <= k < |calls| - 1 ==> svc.Granted(k))
  }

  // The turn of role i is a climb that starts below the last cache, which is still
  // empty.
  lemma TurnClimbs(svc: Service, roles: seq<Role>, stores: seq<Store>, world: World, i: nat) returns (lo: nat, top: nat)
    requires i < |roles| && |stores| == i && (i > 0 ==> stores[i - 1].None?)
    ensures lo <= i && FirstFresh(svc, stores, world.ticks, lo) && (lo == i ==> i == 0)
    ensures Climb(svc, roles[..i + 1], stores, world, FromProvider(svc, roles[..i + 1], stores, world), lo, top)
  {
    lo, top := FromProviderClimbs(svc, roles[..i + 1], stores, world);
  }

  lemma ClimbSteps(svc: Service, roles: seq<Role>, n: nat, stores: seq<Store>, world: World, g: Got, lo: nat, top: nat)
    requires n <= |roles| && Climb(svc, roles[..n], stores, world, g, lo, top)
    ensures Steps(svc, g.world.calls, |world.calls|, roles, lo, top)
  {
    var start, calls := |world.calls|, g.world.calls;
    forall k | start <= k < |calls|
      ensures calls[k].link == lo + (k - start) && calls[k].role == roles[calls[k].link]
    {
      var i := lo + (k - start);
      assert calls[start + (i - lo)] == ClimbCall(roles[..n], stores, start, lo, i);
    }
  }

  // What holds of the requests from number `from` on when the first n roles are set up.
  ghost predicate AllObtained(svc: Service, calls: seq<Call>, from: nat, roles: seq<Role>, n: nat)
    requires n <= |roles|
  {
    && from <= |calls|
    && ForRoles(calls, from, roles, n)
    && forall j :: 0 <= j < n ==> Obtained(svc, calls, from, j)
  }

  lemma ObtainedStays(svc: Service, before: seq<Call>, after: seq<Call>, from: nat, link: nat)
    requires before <= after && Obtained(svc, before, from, link)
    ensures Obtained(svc, after, from, link)
  {
    var k :| from <= k < |before| && before[k].link == link && svc.Granted(k);
    assert after[k].link == link;
  }

  // After a turn every link before has been granted, and this one iff the last
  // request was.
  lemma StepsObtain(svc: Service, before: seq<Call>, after: seq<Call>, from: nat, roles: seq<Role>, i: nat, lo: nat, top: nat)
    requires i < |roles| && before <= after && AllObtained(svc, before, from, roles, i)
    requires Steps(svc, after, |before|, roles, lo, top) && top <= i + 1
    requires svc.Granted(|after| - 1) ==> top == i + 1
    ensures ForRoles(after, from, roles, i + 1)
    ensures forall j :: 0 <= j < i ==> Obtained(svc, after, from, j)
    ensures Obtained(svc, after, from, i) <==> svc.Granted(|after| - 1)
  {
    forall j | 0 <= j < i
      ensures Obtained(svc, after, from, j)
    {
      ObtainedStays(svc, before, after, from, j);
    }
    forall k | from <= k < |after|
      ensures after[k].link < i + 1 && after[k].role == roles[after[k].link]
      ensures after[k].link == i ==> k == |after| - 1
    {
      assert k < |before| ==> after[k] == before[k];
    }
    assert svc.Granted(|after| - 1) ==> after[|after| - 1].link == i;
  }

  // ------------------------------------------------------------- every run

  // The requests so far number from 2n-1 to n(n+1)/2.
  predicate Between(count: int, n: nat) {
    2 * n - 1 <= count <= Triangle(n)
  }

  // Which roles were requested and granted, and how many requests that took.
  ghost predicate Accounted(svc: Service, roles: seq<Role>, start: seq<Call>, r: Setup) {
    var calls, from := r.world.calls, |start|;
    && start <= calls
    && match r
       case Going(stores, _) =>
         var n := |stores|;
         && n <= Named(roles)
         && AllObtained(svc, calls, from, roles, n)
         && Between(|calls| - from, n)
         && (n > 0 ==> stores[n - 1].None?)
       case MissingARN(number, _) =>
         && number == Named(roles) + 1 <= |roles|
         && AllObtained(svc, calls, from, roles, number - 1)
         && Between(|calls| - from, number - 1)
       case Refused(i, _) =>
         && i < Named(roles)
         && ForRoles(calls, from, roles, i + 1)
         && (forall j :: 0 <= j < i ==> Obtained(svc, calls, from, j))
         && !Obtained(svc, calls, from, i)
         && LastDenied(svc, calls, from)
         && 2 * i <= |calls| - from <= Triangle(i + 1)
  }

  lemma TurnRequests(svc: Service, roles: seq<Role>, from: nat, stores: seq<Store>, world: World, i: nat)
    requires i < |roles| && |stores| == i && (i > 0 ==> stores[i - 1].None?)
    requires AllObtained(svc, world.calls, from, roles, i)
    ensures var g := FromProvider(svc, roles[..i + 1], stores, world);
            && world.calls <= g.world.calls
            && ForRoles(g.world.calls, from, roles, i + 1)
            && (forall j :: 0 <= j < i ==> Obtained(svc, g.world.calls, from, j))
            && (g.creds.Some? <==> Obtained(svc, g.world.calls, from, i))
            && (g.creds.None? ==> LastDenied(svc, g.world.calls, |world.calls|))
            && (if g.creds.Some? && i > 0 then 2 else 1) <= |g.world.calls| - |world.calls| <= i + 1
  {
    var g := FromProvider(svc, roles[..i + 1], stores, world);
    var lo, top := TurnClimbs(svc, roles, stores, world, i);
    ClimbSteps(svc, roles, i + 1, stores, world, g, lo, top);
    StepsObtain(svc, world.calls, g.world.calls, from, roles, i, lo, top);
  }

  lemma TurnAccounted(svc: Service, roles: seq<Role>, start: seq<Call>, i: nat, before: Setup)
    requires i < |roles| && (before.Going? ==> |before.stores| == i) && Accounted(svc, roles, start, before)
    ensures Accounted(svc, roles, start, Turn(svc, roles, i, before))
  {
    if before.Going? && roles[i].arn != "" {
      TurnRequests(svc, roles, |start|, before.stores, before.world, i);
    }
  }

  // In every run the requests are for configured roles; every role set up was
  // granted, and the one that failed, if one did, is the first that was not.
  lemma {:induction false} SetUpAccounted(svc: Service, roles: seq<Role>, n: nat, world: World)
    requires n <= |roles|
    ensures Accounted(svc, roles, world.calls, SetUp(svc, roles, n, world))
  {
    if n > 0 {
      SetUpAccounted(svc, roles, n - 1, world);
      TurnAccounted(svc, roles, world.calls, n - 1, SetUp(svc, roles, n - 1, world));
    }
  }

  // Each request is properly signed, and what a cache holds was issued to it.
  ghost predicate Sound(svc: Service, r: Setup) {
    LogOk(svc, r.world.calls) && (r.Going? ==> StoresOk(svc, r.stores, r.world.calls))
  }

  lemma TurnSound(svc: Service, roles: seq<Role>, i: nat, before: Setup)
    requires i < |roles| && (before.Going? ==> |before.stores| == i) && Sound(svc, before)
    ensures Sound(svc, Turn(svc, roles, i, before))
  {
    if before.Going? && roles[i].arn != "" {
      ProviderSound(svc, roles[..i + 1], before.stores, before.world);
    }
  }

  // So it is in every run.
  lemma {:induction false} SetUpSound(svc: Service, roles: seq<Role>, n: nat, world: World)
    requires n <= |roles| && LogOk(svc, world.calls)
    ensures Sound(svc, SetUp(svc, roles, n, world))
  {
    if n > 0 {
      SetUpSound(svc, roles, n - 1, world);
      TurnSound(svc, roles, n - 1, SetUp(svc, roles, n - 1, world));
    }
  }

  // ------------------------------------------- the shortest and the longest run

  // The requests of an undisturbed setup of the first n roles, when `base`
  // requests came before: a role is requested once on its own account, and once
  // more, to fill its cache, when the next role has to sign.
  function SetupLog(roles: seq<Role>, base: nat, n: nat): seq<Call>
    requires n <= |roles|
  {
    if n == 0 then []
    else if n == 1 then [Call(0, roles[0], Base)]
    else
      SetupLog(roles, base, n - 1)
      + [Call(n - 2, roles[n - 2], if n == 2 then Base else Assumed(base + 2 * n - 5)),
         Call(n - 1, roles[n - 1], Assumed(base + 2 * n - 3))]
  }

  // And what it leaves in the caches: all are filled but the last.
  function SetupStores(base: nat, n: nat): seq<Store> {
    seq(n, i requires 0 <= i < n => if i == n - 1 then None else Some(Assumed(base + 2 * i + 1)))
  }

  // Two requests for every role but one.
  lemma {:induction false} SetupLogLength(roles: seq<Role>, base: nat, n: nat)
    requires n <= |roles|
    ensures |SetupLog(roles, base, n)| == if n == 0 then 0 else 2 * n - 1
  {
    if n > 1 {
      SetupLogLength(roles, base, n - 1);
    }
  }

  // The k-th request of an undisturbed setup is for role k/2: every role is
  // requested at numbers 2i and 2i+1, and the last at 2i only. It is signed with
  // what the request before it obtained if that was for the role below, and with
  // what the one two before obtained otherwise.
  lemma {:induction false} SetupLogAt(roles: seq<Role>, base: nat, n: nat, k: nat)
    requires n <= |roles| && k < |SetupLog(roles, base, n)|
    ensures k / 2 < n
    ensures SetupLog(roles, base, n)[k] ==
            Call(k / 2, roles[k / 2], if k < 2 then Base else Assumed(base + if k % 2 == 1 then k - 2 else k - 1))
  {
    SetupLogLength(roles, base, n);
    if n > 1 {
      SetupLogLength(roles, base, n - 1);
      if k < 2 * n - 3 {
        SetupLogAt(roles, base, n - 1, k);
      }
    }
  }

  // An undisturbed turn after the first: the request that fills the last cache, and
  // the one it signs.
  lemma CalmTurn(svc: Service, roles: seq<Role>, base: nat, world: World, i: nat)
    requires svc.Calm() && 0 < i < |roles| && |world.calls| == base + 2 * i - 1
    ensures var g := FromProvider(svc, roles[..i + 1], SetupStores(base, i), world);
            && g.creds.Some?
            && g.world.calls == world.calls
                 + [Call(i - 1, roles[i - 1], if i == 1 then Base else Assumed(base + 2 * i - 3)),
                    Call(i, roles[i], Assumed(base + 2 * i - 1))]
            && g.stores + [None] == SetupStores(base, i + 1)
  {
    var stores := SetupStores(base, i);
    var g := FromProvider(svc, roles[..i + 1], stores, world);
    var lo, top := TurnClimbs(svc, roles, stores, world, i);
    assert i > 1 ==> Answers(svc, stores, world.ticks, i - 2);
    assert lo == i - 1 && top == i + 1;
    TwoStepClimb(svc, roles, i, stores, world, g, lo, top);
    CalmStores(svc, base, i, stores, world, g, lo, top);
  }

  lemma CalmStores(svc: Service, base: nat, i: nat, stores: seq<Store>, world: World, g: Got, lo: nat, top: nat)
    requires svc.Calm() && 0 < i && lo == i - 1 && top == i + 1
    requires stores == SetupStores(base, i) && |world.calls| == base + 2 * i - 1 && ClimbStores(svc, stores, world, g, lo, top)
    ensures g.stores + [None] == SetupStores(base, i + 1)
  {
  }

  lemma TwoStepClimb(svc: Service, roles: seq<Role>, i: nat, stores: seq<Store>, world: World, g: Got, lo: nat, top: nat)
    requires 0 < i < |roles| && lo == i - 1 && top == i + 1
    requires Climb(svc, roles[..i + 1], stores, world, g, lo, top)
    ensures g.world.calls == world.calls
              + [ClimbCall(roles[..i + 1], stores, |world.calls|, lo, i - 1),
                 ClimbCall(roles[..i + 1], stores, |world.calls|, lo, i)]
  {
    var from, calls := |world.calls|, g.world.calls;
    assert calls[from + (i - 1 - lo)] == ClimbCall(roles[..i + 1], stores, from, lo, i - 1);
    assert calls[from + (i - lo)] == ClimbCall(roles[..i + 1], stores, from, lo, i);
    assert calls == world.calls + [calls[from], calls[from + 1]];
  }

  lemma CalmLogGrows(start: seq<Call>, roles: seq<Role>, n: nat)
    requires 1 < n <= |roles|
    ensures start + SetupLog(roles, |start|, n) ==
            start + SetupLog(roles, |start|, n - 1)
              + [Call(n - 2, roles[n - 2], if n == 2 then Base else Assumed(|start| + 2 * n - 5)),
                 Call(n - 1, roles[n - 1], Assumed(|start| + 2 * n - 3))]
  {
  }

  // An undisturbed setup sends exactly these requests and leaves exactly these caches.
  lemma {:induction false} CalmSetUp(svc: Service, roles: seq<Role>, n: nat, world: World)
    requires svc.Calm() && n <= Named(roles)
    ensures var r := SetUp(svc, roles, n, world);
            && r.Going?
            && r.world.calls == world.calls + SetupLog(roles, |world.calls|, n)
            && r.stores == SetupStores(|world.calls|, n)
  {
    if n == 1 {
      assert SetUp(svc, roles, 0, world) == Going([], world);
    } else if n > 1 {
      CalmSetUp(svc, roles, n - 1, world);
      SetupLogLength(roles, |world.calls|, n - 1);
      var before := SetUp(svc, roles, n - 1, world);
      CalmTurn(svc, roles, |world.calls|, before.world, n - 1);
      CalmLogGrows(world.calls, roles, n);
      assert SetUp(svc, roles, n, world) == Turn(svc, roles, n - 1, before);
    }
  }

  // Where everything is found expired, a setup makes as many requests as any can.
  lemma {:induction false} StaleSetUp(svc: Service, roles: seq<Role>, n: nat, world: World)
    requires svc.Stale() && n <= Named(roles) && LogOk(svc, world.calls)
    ensures var r := SetUp(svc, roles, n, world);
            r.Going? && |r.world.calls| == |world.calls| + Triangle(n)
  {
    if n > 0 {
      StaleSetUp(svc, roles, n - 1, world);
      SetUpSound(svc, roles, n - 1, world);
      SetUpAccounted(svc, roles, n - 1, world);
      var before := SetUp(svc, roles, n - 1, world);
      StaleTurn(svc, roles, before.stores, before.world, n - 1);
    }
  }

  lemma StaleTurn(svc: Service, roles: seq<Role>, stores: seq<Store>, world: World, i: nat)
    requires svc.Stale() && i < |roles| && |stores| == i && (i > 0 ==> stores[i - 1].None?)
    requires StoresOk(svc, stores, world.calls)
    ensures var g := FromProvider(svc, roles[..i + 1], stores, world);
            g.creds.Some? && |g.world.calls| == |world.calls| + i + 1
  {
    var lo, top := TurnClimbs(svc, roles, stores, world, i);
    forall j | 0 <= j < i
      ensures !Answers(svc, stores, world.ticks, j)
    {
      if stores[j].Some? { assert IssuedTo(svc, world.calls, stores[j].value, j); }
    }
  }

  // Both bounds on the number of requests are reached.
  lemma {:induction false} BoundsReached(roles: seq<Role>)
    requires roles != [] && Named(roles) == |roles|
    ensures exists svc :: |SetUp(svc, roles, |roles|, World([], 0)).world.calls| == Triangle(|roles|)
    ensures exists svc :: |SetUp(svc, roles, |roles|, World([], 0)).world.calls| == 2 * |roles| - 1
  {
    var n, start := |roles|, World([], 0);
    var stale, calm := Service(_ => Issued(0), _ => 0), Service(_ => Issued(1), _ => 0);
    StaleSetUp(stale, roles, n, start);
    CalmSetUp(calm, roles, n, start);
    SetupLogLength(roles, 0, n);
    assert |SetUp(calm, roles, n, start).world.calls| == 2 * n - 1;
  }

  lemma {:induction false} TriangleIs(n: nat)
    ensures 2 * Triangle(n) == n * (n + 1)
  {
    if n > 0 {
      TriangleIs(n - 1);
    }
  }

  // ------------------------------------------------ the first use of the chain

  // The retrieve that follows a setup sends a request for the last role at least,
  // because its cache is still empty.
  lemma FirstUse(svc: Service, roles: seq<Role>, world: World)
    requires roles != [] && LogOk(svc, world.calls) && SetUp(svc, roles, |roles|, world).Going?
    ensures var r := SetUp(svc, roles, |roles|, world);
            var g := FromCache(svc, roles, r.stores, r.world);
            && r.world.calls < g.world.calls && LogOk(svc, g.world.calls)
            && (g.creds.Some? ==> IssuedTo(svc, g.world.calls, g.creds.value, |roles| - 1))
            && (g.creds.None? ==> LastDenied(svc, g.world.calls, |r.world.calls|))
  {
    SetUpSound(svc, roles, |roles|, world);
    SetUpAccounted(svc, roles, |roles|, world);
    var r := SetUp(svc, roles, |roles|, world);
    CacheSound(svc, roles, r.stores, r.world);
    EmptyStoreAsks(svc, roles, r.stores, r.world);
  }

  lemma EmptyStoreAsks(svc: Service, path: seq<Role>, stores: seq<Store>, world: World)
    requires |path| == |stores| > 0 && stores[|stores| - 1].None?
    ensures var g := FromCache(svc, path, stores, world);
            world.calls < g.world.calls && (g.creds.None? ==> LastDenied(svc, g.world.calls, |world.calls|))
  {
    var lo, top := FromCacheClimbs(svc, path, stores, world);
  }

  // In an undisturbed run it brings the requests to two for each role.
  lemma CalmFirstUse(svc: Service, roles: seq<Role>, world: World)
    requires svc.Calm() && roles != [] && Named(roles) == |roles|
    ensures var r := SetUp(svc, roles, |roles|, world);
            && r.Going?
            && FromCache(svc, roles, r.stores, r.world).creds.Some?
            && |FromCache(svc, roles, r.stores, r.world).world.calls| == |world.calls| + 2 * |roles|
  {
    var n := |roles|;
    CalmSetUp(svc, roles, n, world);
    SetupLogLength(roles, |world.calls|, n);
    var r := SetUp(svc, roles, n, world);
    var lo, top := FromCacheClimbs(svc, roles, r.stores, r.world);
    assert n > 1 ==> Answers(svc, r.stores, r.world.ticks, n - 2);
  }

  // ---------------------------------------------------- about such a log

  // Each call of the trace is signed with the credentials the one before it
  // obtained, and the first with the base credentials.
  predicate IsTrace(calls: seq<Call>, trace: seq<nat>) {
    forall i :: 0 <= i < |trace| ==>
      && trace[i] < |calls|
      && calls[trace[i]].link == i
      && calls[trace[i]].signer == if i == 0 then Base else Assumed(trace[i - 1])
  }

  // In a proper log every request goes back to the base credentials through one
  // earlier granted request for each earlier link, in order.
  lemma {:induction false} TraceToBase(svc: Service, calls: seq<Call>, k: nat) returns (trace: seq<nat>)
    requires LogOk(svc, calls) && k < |calls|
    ensures |trace| == calls[k].link + 1 && trace[calls[k].link] == k && IsTrace(calls, trace)
    ensures forall i :: 0 <= i < calls[k].link ==> trace[i] < k && svc.Granted(trace[i])
    decreases k
  {
    assert ProperlySigned(svc, calls, k);
    match calls[k].signer
    case Base => trace := [k];
    case Assumed(j) =>
      var before := TraceToBase(svc, calls, j);
      trace := before + [k];
  }
}
