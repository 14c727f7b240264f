/**
 What a chain of assumed roles does, on values: which requests are sent, who
 signs them, and what the caches hold afterwards, for an arbitrary token service
 and clock (credentials.go, assumeRoleCredentialsProvider).
 */
module RoleChainRuns {

  import opened Wrappers

  // Of the role configuration, what decides control flow; the rest is passed on.
  datatype Role = Role(arn: string)

  // What the token service answers to one AssumeRole request.
  datatype Reply = Denied | Issued(expires: int)

  // The credentials the chain starts from, or those issued by the call of this number.
  datatype Credentials = Base | Assumed(call: nat)

  // One AssumeRole request: the link of the chain that sent it, and who signed it.
  datatype Call = Call(link: nat, role: Role, signer: Credentials)

  type Store = Option<Credentials>

  /** The token service and the clock: what any request and any reading gives. */
  datatype Service = Service(replies: nat -> Reply, clock: nat -> int) {

    predicate Granted(k: nat) {
      replies(k).Issued?
    }

    predicate Expired(c: Credentials, now: int) {
      c.Assumed? && Granted(c.call) && replies(c.call).expires <= now
    }

    // Every request is granted and nothing ever expires.
    ghost predicate Calm() {
      && (forall k: nat :: Granted(k))
      && (forall k: nat, t: nat :: !Expired(Assumed(k), clock(t)))
    }

    // Every request is granted and everything is found expired.
    ghost predicate Stale() {
      && (forall k: nat :: Granted(k))
      && (forall k: nat, t: nat :: Expired(Assumed(k), clock(t)))
    }
  }

  // The requests sent so far, and how often the clock was read.
  datatype World = World(calls: seq<Call>, ticks: nat)

  // What a retrieval gives, and what it leaves.
  datatype Got = Got(creds: Option<Credentials>, stores: seq<Store>, world: World)

  function Send(svc: Service, call: Call, stores: seq<Store>, world: World): Got {
    var n := |world.calls|;
    Got(if svc.Granted(n) then Some(Assumed(n)) else None, stores, world.(calls := world.calls + [call]))
  }

  // Asking the provider of the last role of the path, over the caches of the others.
  function FromProvider(svc: Service, path: seq<Role>, stores: seq<Store>, world: World): (g: Got)
    requires |path| == |stores| + 1
    ensures |g.stores| == |stores|
    decreases |path|, 0
  {
    var link := |stores|;
    if link == 0 then Send(svc, Call(0, path[0], Base), stores, world)
    else
      var g := FromCache(svc, path[..link], stores, world);
      if g.creds.None? then g
      else Send(svc, Call(link, path[link], g.creds.value), g.stores, g.world)
  }

  // The store will answer at the next reading of the clock.
  predicate Fresh(svc: Service, store: Store, ticks: nat) {
    store.Some? && !svc.Expired(store.value, svc.clock(ticks))
  }

  // Looking at a store reads the clock if there is something in it.
  function Looked(store: Store, world: World): World {
    if store.Some? then world.(ticks := world.ticks + 1) else world
  }

  // Asking the cache of the last role of the path.
  function FromCache(svc: Service, path: seq<Role>, stores: seq<Store>, world: World): (g: Got)
    requires |path| == |stores| > 0
    ensures |g.stores| == |stores|
    decreases |path|, 1
  {
    var last := stores[|stores| - 1];
    if Fresh(svc, last, world.ticks) then Got(last, stores, Looked(last, world))
    else
      var g := FromProvider(svc, path, stores[..|stores| - 1], Looked(last, world));
      Got(g.creds, g.stores + [if g.creds.Some? then g.creds else last], g.world)
  }

  // ------------------------------------------------ one retrieval in closed form

  // How many of the stores from i on hold something.
  function Filled(stores: seq<Store>, i: nat): nat
    requires i <= |stores|
    decreases |stores| - i
  {
    if i == |stores| then 0 else (if stores[i].Some? then 1 else 0) + Filled(stores, i + 1)
  }

  // Store i answers when its turn comes: the filled ones above it are looked at
  // before it.
  predicate Answers(svc: Service, stores: seq<Store>, ticks: nat, i: nat)
    requires i < |stores|
  {
    Fresh(svc, stores[i], ticks + Filled(stores, i + 1))
  }

  // The stores are looked at from the last one down: those from lo on do not
  // answer, and the one below lo, if there is one, does.
  ghost predicate FirstFresh(svc: Service, stores: seq<Store>, ticks: nat, lo: nat)
    requires lo <= |stores|
  {
    && (forall i :: lo <= i < |stores| ==> !Answers(svc, stores, ticks, i))
    && (lo > 0 ==> Answers(svc, stores, ticks, lo - 1))
  }

  // The request for a link, when the climb started at lo with call number `from`.
  function ClimbCall(path: seq<Role>, stores: seq<Store>, from: nat, lo: nat, link: nat): Call
    requires lo <= link < |path| && lo <= |stores|
  {
    Call(link, path[link],
      if link > lo then Assumed(from + (link - lo) - 1)
      else if lo == 0 then Base
      else if stores[lo - 1].Some? then stores[lo - 1].value
      else Base)
  }

  // The result g of a retrieval that sends requests: one for each link from lo up
  // to, not including, top, each signed with what the one before it obtained, the
  // first with what the store below has; all granted but possibly the last, and
  // the retrieval succeeds when the last link of the path is reached and granted;
  // and what was obtained is stored, and nothing else changed.
  ghost predicate Climb(svc: Service, path: seq<Role>, stores: seq<Store>, world: World, g: Got, lo: nat, top: nat) {
    && lo < top <= |path| && lo <= |stores| <= |path|
    && ClimbCalls(path, stores, world, g.world, lo, top)
    && ClimbReplies(svc, path, world, g, lo, top)
    && ClimbStores(svc, stores, world, g, lo, top)
  }

  ghost predicate ClimbCalls(path: seq<Role>, stores: seq<Store>, before: World, after: World, lo: nat, top: nat)
    requires lo < top <= |path| && lo <= |stores|
  {
    var from := |before.calls|;
    && |after.calls| == from + (top - lo)
    && before.calls <= after.calls
    && forall i :: lo <= i < top ==> after.calls[from + (i - lo)] == ClimbCall(path, stores, from, lo, i)
  }

  ghost predicate ClimbReplies(svc: Service, path: seq<Role>, before: World, g: Got, lo: nat, top: nat)
    requires lo < top <= |path|
  {
    var from := |before.calls|;
    var last := from + (top - lo) - 1;
    && (forall k :: from <= k < last ==> svc.Granted(k))
    && (svc.Granted(last) ==> top == |path|)
    && g.creds == if svc.Granted(last) then Some(Assumed(last)) else None
  }

  ghost predicate ClimbStores(svc: Service, stores: seq<Store>, before: World, g: Got, lo: nat, top: nat)
    requires lo <= |stores|
  {
    var from := |before.calls|;
    && |g.stores| == |stores|
    && g.world.ticks == before.ticks + Filled(stores, if lo == 0 then 0 else lo - 1)
    && forall i :: 0 <= i < |stores| ==>
         g.stores[i] == if lo <= i < top && svc.Granted(from + (i - lo)) then Some(Assumed(from + (i - lo))) else stores[i]
  }

  lemma {:induction false} FilledLast(stores: seq<Store>, last: Store, i: nat)
    requires i <= |stores|
    ensures Filled(stores + [last], i) == Filled(stores, i) + if last.Some? then 1 else 0
    decreases |stores| - i
  {
    var all := stores + [last];
    if i < |stores| {
      FilledLast(stores, last, i + 1);
      assert all[i] == stores[i];
    } else {
      assert Filled(all, i + 1) == 0;
    }
  }

  // A climb of one request: the store right below answers, or there is none.
  lemma ClimbStarts(svc: Service, path: seq<Role>, stores: seq<Store>, world: World)
    requires |path| == |stores| + 1
    requires var n := |stores|; n == 0 || Fresh(svc, stores[n - 1], world.ticks)
    ensures FirstFresh(svc, stores, world.ticks, |stores|)
    ensures Climb(svc, path, stores, world, FromProvider(svc, path, stores, world), |stores|, |path|)
  {
    var n := |stores|;
    assert n > 0 ==> Filled(stores, n - 1) == 1;
  }

  // A climb that reached the last cache goes on with the request it signs.
  lemma ClimbGoesOn(svc: Service, path: seq<Role>, stores: seq<Store>, world: World, g: Got, lo: nat, top: nat)
    requires |path| == |stores| + 1 && lo <= |stores|
    requires Climb(svc, path[..|stores|], stores, world, g, lo, top) && g.creds.Some?
    ensures Climb(svc, path, stores, world, Send(svc, Call(|stores|, path[|stores|], g.creds.value), g.stores, g.world), lo, top + 1)
  {
    var n, from := |stores|, |world.calls|;
    var h := Send(svc, Call(n, path[n], g.creds.value), g.stores, g.world);
    forall i | lo <= i < top + 1
      ensures h.world.calls[from + (i - lo)] == ClimbCall(path, stores, from, lo, i)
    {
      if i < top {
        assert g.world.calls[from + (i - lo)] == ClimbCall(path[..n], stores, from, lo, i);
      }
    }
  }

  // A climb that failed before is one on the longer path, too.
  lemma ClimbFailed(svc: Service, path: seq<Role>, stores: seq<Store>, world: World, g: Got, lo: nat, top: nat)
    requires |path| == |stores| + 1 && lo <= |stores|
    requires Climb(svc, path[..|stores|], stores, world, g, lo, top) && g.creds.None?
    ensures Climb(svc, path, stores, world, g, lo, top)
  {
    var from := |world.calls|;
    forall i | lo <= i < top
      ensures g.world.calls[from + (i - lo)] == ClimbCall(path, stores, from, lo, i)
    {
      assert g.world.calls[from + (i - lo)] == ClimbCall(path[..|stores|], stores, from, lo, i);
    }
  }

  // A cache puts away what its provider's climb obtained.
  lemma ClimbStored(svc: Service, path: seq<Role>, stores: seq<Store>, last: Store, world: World, g: Got, lo: nat, top: nat)
    requires |path| == |stores| + 1
    requires Climb(svc, path, stores, Looked(last, world), g, lo, top)
    ensures Climb(svc, path, stores + [last], world,
                  Got(g.creds, g.stores + [if g.creds.Some? then g.creds else last], g.world), lo, top)
  {
    var from, all := |world.calls|, stores + [last];
    FilledLast(stores, last, if lo == 0 then 0 else lo - 1);
    assert lo > 0 ==> all[lo - 1] == stores[lo - 1];
    forall i | lo <= i < top
      ensures g.world.calls[from + (i - lo)] == ClimbCall(path, all, from, lo, i)
    {
      assert g.world.calls[from + (i - lo)] == ClimbCall(path, stores, from, lo, i);
    }
  }

  lemma AnswersLonger(svc: Service, stores: seq<Store>, last: Store, ticks: nat, i: nat)
    requires i <= |stores|
    ensures Answers(svc, stores + [last], ticks, i) <==>
            if i == |stores| then Fresh(svc, last, ticks)
            else Answers(svc, stores, ticks + if last.Some? then 1 else 0, i)
  {
    if i < |stores| { FilledLast(stores, last, i + 1); }
  }

  lemma FirstFreshLonger(svc: Service, stores: seq<Store>, last: Store, ticks: nat, lo: nat)
    requires lo <= |stores| && !Fresh(svc, last, ticks)
    requires FirstFresh(svc, stores, ticks + if last.Some? then 1 else 0, lo)
    ensures FirstFresh(svc, stores + [last], ticks, lo)
  {
    forall i | 0 <= i <= |stores|
      ensures Answers(svc, stores + [last], ticks, i) <==>
              i < |stores| && Answers(svc, stores, ticks + if last.Some? then 1 else 0, i)
    {
      AnswersLonger(svc, stores, last, ticks, i);
    }
  }

  // Any retrieval from a provider is a climb from the last store found unexpired.
  lemma {:induction false} FromProviderClimbs(svc: Service, path: seq<Role>, stores: seq<Store>, world: World)
      returns (lo: nat, top: nat)
    requires |path| == |stores| + 1
    ensures lo <= |stores| && FirstFresh(svc, stores, world.ticks, lo)
    ensures Climb(svc, path, stores, world, FromProvider(svc, path, stores, world), lo, top)
    decreases |path|, 0
  {
    var n := |stores|;
    if n == 0 || Fresh(svc, stores[n - 1], world.ticks) {
      lo, top := n, n + 1;
      ClimbStarts(svc, path, stores, world);
    } else {
      lo, top := FromCacheClimbs(svc, path[..n], stores, world);
      var g := FromCache(svc, path[..n], stores, world);
      if g.creds.Some? {
        ClimbGoesOn(svc, path, stores, world, g, lo, top);
        top := top + 1;
      } else {
        ClimbFailed(svc, path, stores, world, g, lo, top);
      }
    }
  }

  // So is one from a cache whose own store does not answer.
  lemma {:induction false} FromCacheClimbs(svc: Service, path: seq<Role>, stores: seq<Store>, world: World)
      returns (lo: nat, top: nat)
    requires |path| == |stores| > 0 && !Fresh(svc, stores[|stores| - 1], world.ticks)
    ensures lo < |stores| && FirstFresh(svc, stores, world.ticks, lo)
    ensures Climb(svc, path, stores, world, FromCache(svc, path, stores, world), lo, top)
    decreases |path|, 1
  {
    var n := |stores| - 1;
    var below, last := stores[..n], stores[n];
    lo, top := FromProviderClimbs(svc, path, below, Looked(last, world));
    assert stores == below + [last];
    FirstFreshLonger(svc, below, last, world.ticks, lo);
    ClimbStored(svc, path, below, last, world, FromProvider(svc, path, below, Looked(last, world)), lo, top);
  }

  // Both together leave nothing open: they determine the whole result.
  lemma ClimbUnique(svc: Service, path: seq<Role>, stores: seq<Store>, world: World,
                    g: Got, lo: nat, top: nat, h: Got, lo': nat, top': nat)
    requires lo <= |stores| && FirstFresh(svc, stores, world.ticks, lo) && Climb(svc, path, stores, world, g, lo, top)
    requires lo' <= |stores| && FirstFresh(svc, stores, world.ticks, lo') && Climb(svc, path, stores, world, h, lo', top')
    ensures g == h
  {
    var from := |world.calls|;
    assert lo == lo';
    assert top == top';
    forall k | 0 <= k < |g.world.calls|
      ensures g.world.calls[k] == h.world.calls[k]
    {
      if k >= from {
        var i := lo + (k - from);
        assert g.world.calls[from + (i - lo)] == ClimbCall(path, stores, from, lo, i);
        assert h.world.calls[from + (i - lo)] == ClimbCall(path, stores, from, lo, i);
      } else {
        assert world.calls[k] == g.world.calls[k] && world.calls[k] == h.world.calls[k];
      }
    }
    assert g.stores == h.stores;
  }

  // ------------------------------------------------------- who signs what

  // c was issued to link by one of these calls.
  predicate IssuedTo(svc: Service, calls: seq<Call>, c: Credentials, link: nat) {
    c.Assumed? && c.call < |calls| && calls[c.call].link == link && svc.Granted(c.call)
  }

  // Requests of the first link are signed with the base credentials, those of any
  // other link with credentials issued earlier to the link before it.
  predicate ProperlySigned(svc: Service, calls: seq<Call>, k: nat)
    requires k < |calls|
  {
    match calls[k].signer
    case Base => calls[k].link == 0
    case Assumed(j) => j < k && calls[k].link > 0 && IssuedTo(svc, calls, Assumed(j), calls[k].link - 1)
  }

  ghost predicate LogOk(svc: Service, calls: seq<Call>) {
    forall k :: 0 <= k < |calls| ==> ProperlySigned(svc, calls, k)
  }

  // What a store holds was issued to its own link.
  ghost predicate StoresOk(svc: Service, stores: seq<Store>, calls: seq<Call>) {
    forall i :: 0 <= i < |stores| && stores[i].Some? ==> IssuedTo(svc, calls, stores[i].value, i)
  }

  lemma ClimbSigned(svc: Service, path: seq<Role>, stores: seq<Store>, world: World, g: Got, lo: nat, top: nat, i: nat)
    requires Climb(svc, path, stores, world, g, lo, top) && (lo > 0 ==> stores[lo - 1].Some?)
    requires StoresOk(svc, stores, world.calls) && lo <= i < top
    ensures ProperlySigned(svc, g.world.calls, |world.calls| + (i - lo))
    ensures g.world.calls[|world.calls| + (i - lo)].link == i
  {
    var from := |world.calls|;
    assert g.world.calls[from + (i - lo)] == ClimbCall(path, stores, from, lo, i);
    if i > lo {
      assert g.world.calls[from + (i - 1 - lo)] == ClimbCall(path, stores, from, lo, i - 1);
      assert svc.Granted(from + (i - 1 - lo));
    } else if lo > 0 {
      assert IssuedTo(svc, world.calls, stores[lo - 1].value, lo - 1);
    }
  }

  // A climb keeps the log properly signed and the stores in order, and hands out
  // what was issued to the last link.
  lemma ClimbSound(svc: Service, path: seq<Role>, stores: seq<Store>, world: World, g: Got, lo: nat, top: nat)
    requires Climb(svc, path, stores, world, g, lo, top) && (lo > 0 ==> stores[lo - 1].Some?)
    requires LogOk(svc, world.calls) && StoresOk(svc, stores, world.calls)
    ensures LogOk(svc, g.world.calls) && StoresOk(svc, g.stores, g.world.calls)
    ensures g.creds.Some? ==> IssuedTo(svc, g.world.calls, g.creds.value, |path| - 1)
  {
    var from := |world.calls|;
    forall k | 0 <= k < |g.world.calls|
      ensures ProperlySigned(svc, g.world.calls, k)
    {
      if k < from {
        assert ProperlySigned(svc, world.calls, k);
      } else {
        ClimbSigned(svc, path, stores, world, g, lo, top, lo + (k - from));
      }
    }
    forall i | 0 <= i < |stores| && g.stores[i].Some?
      ensures IssuedTo(svc, g.world.calls, g.stores[i].value, i)
    {
      if lo <= i < top { ClimbSigned(svc, path, stores, world, g, lo, top, i); }
      if g.stores[i] == stores[i] { assert IssuedTo(svc, world.calls, stores[i].value, i); }
    }
    if g.creds.Some? { ClimbSigned(svc, path, stores, world, g, lo, top, top - 1); }
  }

  // So does any retrieval.
  lemma ProviderSound(svc: Service, path: seq<Role>, stores: seq<Store>, world: World)
    requires |path| == |stores| + 1 && LogOk(svc, world.calls) && StoresOk(svc, stores, world.calls)
    ensures var g := FromProvider(svc, path, stores, world);
            && LogOk(svc, g.world.calls) && StoresOk(svc, g.stores, g.world.calls)
            && (g.creds.Some? ==> IssuedTo(svc, g.world.calls, g.creds.value, |path| - 1))
  {
    var lo, top := FromProviderClimbs(svc, path, stores, world);
    ClimbSound(svc, path, stores, world, FromProvider(svc, path, stores, world), lo, top);
  }

  lemma CacheSound(svc: Service, path: seq<Role>, stores: seq<Store>, world: World)
    requires |path| == |stores| > 0 && LogOk(svc, world.calls) && StoresOk(svc, stores, world.calls)
    ensures var g := FromCache(svc, path, stores, world);
            && LogOk(svc, g.world.calls) && StoresOk(svc, g.stores, g.world.calls)
            && (g.creds.Some? ==> IssuedTo(svc, g.world.calls, g.creds.value, |path| - 1))
  {
    if !Fresh(svc, stores[|stores| - 1], world.ticks) {
      var lo, top := FromCacheClimbs(svc, path, stores, world);
      ClimbSound(svc, path, stores, world, FromCache(svc, path, stores, world), lo, top);
    }
  }

  // A cache hands out what it has, found unexpired just then, and asks for nothing
  // and changes nothing; or what the last request of this retrieval obtained, which
  // it keeps; or nothing, when that request was denied.
  lemma CacheAnswers(svc: Service, path: seq<Role>, stores: seq<Store>, world: World)
    requires |path| == |stores| > 0
    ensures var g, n := FromCache(svc, path, stores, world), |stores| - 1;
            if Fresh(svc, stores[n], world.ticks) then
              g == Got(stores[n], stores, World(world.calls, world.ticks + 1))
            else
              && world.calls < g.world.calls
              && (if svc.Granted(|g.world.calls| - 1) then g.creds == g.stores[n] == Some(Assumed(|g.world.calls| - 1))
                  else g.creds == None && g.stores[n] == stores[n])
  {
    if !Fresh(svc, stores[|stores| - 1], world.ticks) {
      var lo, top := FromCacheClimbs(svc, path, stores, world);
    }
  }
}
