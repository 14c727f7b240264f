/**
 The v1 shim's credentials adapter (v2/awsv1shim/credentials.go): the last
 credentials retrieved are kept, so that expiry can be asked without asking the
 provider. Times are integers; the zero time is 0.
 */
module ShimCredentials {

  import opened Wrappers

  const ZERO_TIME := 0

  datatype V2Credentials = V2Credentials(accessKeyID: string, secretAccessKey: string, sessionToken: string,
                                         source: string, canExpire: bool, expires: int)
  {
    predicate HasKeys() {
      accessKeyID != "" && secretAccessKey != ""
    }

    predicate Expired(now: int) {
      canExpire && expires <= now
    }
  }

  datatype Value = Value(accessKeyID: string, secretAccessKey: string, sessionToken: string, providerName: string)

  type Reply = Option<V2Credentials>

  /** The wrapped provider: it answers its n-th call with its n-th reply; None is an error. */
  class Provider {
    const replies: nat -> Reply
    var calls: nat

    constructor (replies: nat -> Reply)
      ensures this.replies == replies && calls == 0
    {
      this.replies := replies;
      calls := 0;
    }

    method Retrieve() returns (r: Reply)
      modifies this
      ensures calls == old(calls) + 1 && r == replies(old(calls))
    {
      r := replies(calls);
      calls := calls + 1;
    }
  }

  // The credentials kept are present, have keys and are not expired.
  predicate Usable(stored: Reply, now: int) {
    stored.Some? && stored.value.HasKeys() && !stored.value.Expired(now)
  }

  class V2CredentialsProvider {
    const provider: Provider
    var v2creds: Reply

    constructor (provider: Provider)
      ensures this.provider == provider && v2creds == None
    {
      this.provider := provider;
      v2creds := None;
    }

    method RetrieveWithContext() returns (r: Option<Value>)
      modifies this, provider
      ensures provider.calls == old(provider.calls) + 1
      ensures var reply := provider.replies(old(provider.calls));
              && v2creds == Kept(old(v2creds), reply)
              && (r.Some? <==> reply.Some?)
              && (r.Some? ==> r.value == Value(reply.value.accessKeyID, reply.value.secretAccessKey,
                                               reply.value.sessionToken, "v2Credentials(" + reply.value.source + ")"))
    {
      var reply := provider.Retrieve();
      if reply.None? {
        return None;
      }
      v2creds := reply;
      var c := reply.value;
      return Some(Value(c.accessKeyID, c.secretAccessKey, c.sessionToken, "v2Credentials(" + c.source + ")"));
    }

    method Credentials(now: int) returns (c: Reply)
      ensures c == if Usable(v2creds, now) then v2creds else None
    {
      if v2creds.None? {
        return None;
      }
      if v2creds.value.HasKeys() && !v2creds.value.Expired(now) {
        return v2creds;
      }
      return None;
    }

    // The clock is read twice, and does not go back in between.
    method IsExpired(now: int, later: int) returns (expired: bool)
      requires now <= later
      ensures !expired <==>
                && v2creds.Some?
                && v2creds.value.accessKeyID != "" && v2creds.value.secretAccessKey != ""
                && (v2creds.value.canExpire ==> later < v2creds.value.expires)
    {
      var c := Credentials(now);
      if c.Some? {
        return c.value.Expired(later);
      }
      return true;
    }

    method ExpiresAt(now: int) returns (t: int)
      ensures t == if Usable(v2creds, now) then v2creds.value.expires else ZERO_TIME
    {
      var c := Credentials(now);
      if c.Some? {
        return c.value.expires;
      }
      return ZERO_TIME;
    }
  }

  // ----------------------------------------------------------- all runs

  // What is kept after a retrieve.
  function Kept(stored: Reply, reply: Reply): Reply {
    if reply.Some? then reply else stored
  }

  // A retrieve with the provider's reply, a query, or time passing.
  datatype Event = Retrieve(reply: Reply) | Query | Advance(elapsed: nat)

  datatype State = State(stored: Reply, now: int, calls: nat)

  function Step(s: State, e: Event): State {
    match e
    case Retrieve(reply) => s.(stored := Kept(s.stored, reply), calls := s.calls + 1)
    case Query => s
    case Advance(elapsed) => s.(now := s.now + elapsed)
  }

  function Run(s: State, events: seq<Event>): State {
    if events == [] then s else Step(Run(s, events[..|events| - 1]), events[|events| - 1])
  }

  function Init(now: int): State {
    State(None, now, 0)
  }

  predicate Expired(s: State) {
    !Usable(s.stored, s.now)
  }

  // Event i is the last retrieve of the run that succeeded.
  ghost predicate IsLastSuccess(events: seq<Event>, i: int) {
    && 0 <= i < |events| && events[i].Retrieve? && events[i].reply.Some?
    && forall j :: i < j < |events| && events[j].Retrieve? ==> events[j].reply.None?
  }

  ghost predicate NoSuccess(events: seq<Event>) {
    forall j :: 0 <= j < |events| && events[j].Retrieve? ==> events[j].reply.None?
  }

  function Retrieves(events: seq<Event>): nat {
    if events == [] then 0
    else Retrieves(events[..|events| - 1]) + if events[|events| - 1].Retrieve? then 1 else 0
  }

  // What is kept is the last success; the provider is called by retrieves alone.
  lemma {:induction false} RunKeeps(start: int, events: seq<Event>)
    ensures var s := Run(Init(start), events);
            && (s.stored == None <==> NoSuccess(events))
            && (forall i :: IsLastSuccess(events, i) ==> s.stored == events[i].reply)
            && (s.stored.Some? ==> exists i :: IsLastSuccess(events, i))
            && s.calls == Retrieves(events)
            && s.now >= start
    decreases |events|
  {
    if events != [] {
      var n := |events| - 1;
      var front := events[..n];
      RunKeeps(start, front);
      if events[n].Retrieve? && events[n].reply.Some? {
        assert IsLastSuccess(events, n);
      } else {
        forall i: int
          ensures IsLastSuccess(events, i) <==> IsLastSuccess(front, i)
        {
          if IsLastSuccess(front, i) { assert events[i] == front[i]; }
          if IsLastSuccess(events, i) { assert forall j :: 0 <= j < n ==> front[j] == events[j]; }
        }
      }
    }
  }

  // Not expired exactly when the last successful retrieve stored credentials with
  // both keys that cannot expire or do so only after now.
  lemma NotExpiredIff(start: int, events: seq<Event>)
    ensures var s := Run(Init(start), events);
            !Expired(s) <==>
              exists i :: IsLastSuccess(events, i) &&
                var c := events[i].reply.value;
                c.accessKeyID != "" && c.secretAccessKey != "" && (c.canExpire ==> s.now < c.expires)
  {
    RunKeeps(start, events);
  }

  // Without a successful retrieve, expired stays expired, and nothing is forgotten.
  lemma {:induction false} ExpiredStays(s: State, events: seq<Event>)
    requires NoSuccess(events)
    ensures Run(s, events).stored == s.stored && Run(s, events).now >= s.now
    ensures Expired(s) ==> Expired(Run(s, events))
    decreases |events|
  {
    if events != [] {
      ExpiredStays(s, events[..|events| - 1]);
    }
  }
}
