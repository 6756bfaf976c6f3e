/** The request handlers of the extension server: the status lookup for a
    blocked domain, the temporary or permanent allowance a client grants
    itself, the false-positive report and the request counter. Transport,
    JSON parsing and the metrics page are outside this module; each handler
    takes its inputs as plain values and returns a small reply datatype. */
module Extension {
  import opened Wrappers
  import opened Names
  import opened Store
  import opened Metrics

  /** Seconds a temporary allowance stays readable. */
  const TempAllowSeconds: nat := 1800

  /** The one `mode` value that asks for a temporary allowance. */
  const TempMode: string := "temp"

  // ---------------------------------------------------------------------
  // Store key layout: "<namespace>:<client>:<domain key>"
  // ---------------------------------------------------------------------

  const BlockMarkPrefix: string := "block_mark:"

  /** "<namespace>:<client>:<name>": the namespace and a colon come first,
      the domain key comes last. */
  function StoreKey(namespace: string, client: string, name: string): (key: string)
    ensures StartsWith(key, namespace + ":")
    ensures |key| == |namespace| + |client| + |name| + 2
    ensures key[|key| - |name|..] == name
  {
    var key := namespace + ":" + client + ":" + name;
    assert key == (namespace + ":") + (client + ":" + name);
    assert key == (namespace + ":" + client + ":") + name;
    key
  }

  predicate IsBlockMarkKey(key: string) {
    StartsWith(key, BlockMarkPrefix)
  }

  /** The block mark of (client, domain key), the only key the status
      lookup reads. */
  function BlockMarkKey(client: string, name: string): (key: string)
    ensures IsBlockMarkKey(key)
  {
    StoreKey("block_mark", client, name)
  }

  /** The temporary allowance of (client, domain key); never a block mark. */
  function AllowKey(client: string, name: string): (key: string)
    ensures StartsWith(key, "allow:")
    ensures key[0] == 'a'
    ensures !IsBlockMarkKey(key)
  {
    var key := StoreKey("allow", client, name);
    assert key[0] == "allow:"[0];
    assert |key| >= |BlockMarkPrefix| ==> key[..|BlockMarkPrefix|][0] == key[0];
    key
  }

  /** The permanent allowance of (client, domain key); never a block mark. */
  function WhitelistKey(client: string, name: string): (key: string)
    ensures StartsWith(key, "whitelist:")
    ensures key[0] == 'w'
    ensures !IsBlockMarkKey(key)
  {
    var key := StoreKey("whitelist", client, name);
    assert key[0] == "whitelist:"[0];
    assert |key| >= |BlockMarkPrefix| ==> key[..|BlockMarkPrefix|][0] == key[0];
    key
  }

  predicate HasNoColon(s: string) {
    forall i :: 0 <= i < |s| ==> s[i] != ':'
  }

  /** Within one namespace, keys of domain keys without a colon determine
      the client and the domain key they were built from. */
  lemma StoreKeyInjective(namespace: string, c1: string, n1: string, c2: string, n2: string)
    requires HasNoColon(n1) && HasNoColon(n2)
    requires StoreKey(namespace, c1, n1) == StoreKey(namespace, c2, n2)
    ensures c1 == c2 && n1 == n2
  {
    var k := StoreKey(namespace, c1, n1);
    var p1 := namespace + ":" + c1 + ":";
    var p2 := namespace + ":" + c2 + ":";
    assert k == p1 + n1 && k == p2 + n2;
    StoreKeyColons(namespace, c1, n1);
    StoreKeyColons(namespace, c2, n2);
    if |n1| < |n2| {
      assert false;
    } else if |n2| < |n1| {
      assert false;
    }
    assert n1 == k[|p1|..] == n2;
    assert p1 == k[..|p1|] == p2;
    assert c1 == p1[|namespace| + 1..|p1| - 1] == c2;
  }

  /** The separator before the domain key is the last colon of a key whose
      domain key has none. */
  lemma StoreKeyColons(namespace: string, client: string, name: string)
    requires HasNoColon(name)
    ensures var k := StoreKey(namespace, client, name);
            && k[|k| - |name| - 1] == ':'
            && forall j :: |k| - |name| <= j < |k| ==> k[j] != ':'
  {
    var k := StoreKey(namespace, client, name);
    assert k == (namespace + ":" + client + ":") + name;
    forall j | |k| - |name| <= j < |k| ensures k[j] != ':' {
      assert k[j] == name[j - (|k| - |name|)];
    }
  }

  /** The separator after the client is the second colon of a key whose
      namespace and client have none. */
  lemma StoreKeyClientColons(namespace: string, client: string, name: string)
    requires HasNoColon(namespace) && HasNoColon(client)
    ensures var k := StoreKey(namespace, client, name);
            && k[|namespace|] == ':'
            && k[|namespace| + 1 + |client|] == ':'
            && forall j :: |namespace| + 1 <= j < |namespace| + 1 + |client| ==> k[j] != ':'
  {
    var k := StoreKey(namespace, client, name);
    assert k == namespace + ":" + (client + ":" + name);
    forall j | |namespace| + 1 <= j < |namespace| + 1 + |client| ensures k[j] != ':' {
      assert k[j] == client[j - |namespace| - 1];
    }
  }

  /** Keys are also unambiguous whenever client identities have no colon
      (every IPv4 client), whatever the domain keys hold. */
  lemma StoreKeyInjectiveForColonFreeClients(namespace: string, c1: string, n1: string, c2: string, n2: string)
    requires HasNoColon(namespace) && HasNoColon(c1) && HasNoColon(c2)
    requires StoreKey(namespace, c1, n1) == StoreKey(namespace, c2, n2)
    ensures c1 == c2 && n1 == n2
  {
    var k := StoreKey(namespace, c1, n1);
    StoreKeyClientColons(namespace, c1, n1);
    StoreKeyClientColons(namespace, c2, n2);
    if |c1| < |c2| {
      assert false;
    } else if |c2| < |c1| {
      assert false;
    }
    assert k == namespace + ":" + c1 + ":" + n1;
    assert k == namespace + ":" + c2 + ":" + n2;
    assert c1 == k[|namespace| + 1..|namespace| + 1 + |c1|] == c2;
    assert n1 == k[|k| - |n1|..] == n2;
  }

  /** A domain key that contains a colon makes the layout ambiguous: two
      different clients can end up with the same key. */
  lemma StoreKeyCollision()
    ensures StoreKey("whitelist", "2001:db8::1", "5:x.com") == StoreKey("whitelist", "2001:db8::1:5", "x.com")
  {
  }

  // ---------------------------------------------------------------------
  // check_block
  // ---------------------------------------------------------------------

  /** The reply of the status lookup: the 400 error for a missing domain,
      a block with the stored score and the domain key, or "not found". */
  datatype CheckReply = NoDomain | SurfBlocked(prob: string, domain: string) | NotFound {
    function HttpStatus(): (status: int)
      ensures status == 400 <==> NoDomain?
      ensures status == 200 <==> !NoDomain?
    {
      if NoDomain? then 400 else 200
    }
  }

  /** The status lookup reads only the block mark of (client, domain key):
      a missing or empty `domain` is the 400 error; otherwise the reply is a
      block exactly when that mark holds a readable, non-empty score. */
  function CheckBlock(entries: map<string, Entry>, now: int, remoteAddr: string, domain: Option<string>): (reply: CheckReply)
    ensures reply.NoDomain? <==> domain.None? || domain.value == ""
    ensures reply.SurfBlocked? ==>
              && domain.Some?
              && reply.domain == PredictName(domain.value)
              && reply.prob != ""
              && Lookup(entries, now, BlockMarkKey(ClientIp(remoteAddr), reply.domain)) == Some(reply.prob)
    ensures reply.NotFound? ==>
              && domain.Some? && domain.value != ""
              && Lookup(entries, now, BlockMarkKey(ClientIp(remoteAddr), PredictName(domain.value))) in {None, Some("")}
  {
    if domain.None? || domain.value == "" then
      NoDomain
    else
      var name := PredictName(domain.value);
      var stored := Lookup(entries, now, BlockMarkKey(ClientIp(remoteAddr), name));
      if stored.Some? && stored.value != "" then SurfBlocked(stored.value, name) else NotFound
  }

  /** Two stores that agree on every block mark give the same status reply,
      whatever else they hold. */
  lemma CheckBlockReadsOnlyBlockMarks(e1: map<string, Entry>, e2: map<string, Entry>, now: int, remoteAddr: string, domain: Option<string>)
    requires forall k :: IsBlockMarkKey(k) ==> Lookup(e1, now, k) == Lookup(e2, now, k)
    ensures CheckBlock(e1, now, remoteAddr, domain) == CheckBlock(e2, now, remoteAddr, domain)
  {
    if domain.Some? && domain.value != "" {
      var key := BlockMarkKey(ClientIp(remoteAddr), PredictName(domain.value));
      assert Lookup(e1, now, key) == Lookup(e2, now, key);
    }
  }

  // ---------------------------------------------------------------------
  // allow_domain
  // ---------------------------------------------------------------------

  /** The reply of an allowance: always "success", with the domain key and
      whether the allowance is the temporary one. */
  datatype AllowReply = AllowReply(status: string, domain: string, temporary: bool)

  /** The key an allowance writes: the temporary one for mode "temp", the
      permanent whitelist for every other mode, an absent one included. */
  function AllowTarget(client: string, name: string, mode: Option<string>): (key: string)
    ensures key == AllowKey(client, name) || key == WhitelistKey(client, name)
    ensures key[0] == (if mode == Some(TempMode) then 'a' else 'w')
    ensures !IsBlockMarkKey(key)
  {
    if mode == Some(TempMode) then AllowKey(client, name) else WhitelistKey(client, name)
  }

  /** The store after an allowance granted at `now`: exactly one key is
      (over)written with "1", with a TTL for the temporary allowance and
      none for the permanent one; every other key keeps its entry. */
  function AllowWrite(entries: map<string, Entry>, now: int, client: string, name: string, mode: Option<string>): (after: map<string, Entry>)
    ensures after.Keys == entries.Keys + {AllowTarget(client, name, mode)}
    ensures forall k :: k in entries && k != AllowTarget(client, name, mode) ==> after[k] == entries[k]
    ensures after[AllowTarget(client, name, mode)].value == "1"
    ensures mode == Some(TempMode) ==> after[AllowTarget(client, name, mode)].expiresAt == Some(now + TempAllowSeconds)
    ensures mode != Some(TempMode) ==> after[AllowTarget(client, name, mode)].expiresAt == None
  {
    if mode == Some(TempMode) then
      entries[AllowKey(client, name) := Entry("1", Some(now + TempAllowSeconds))]
    else
      entries[WhitelistKey(client, name) := Entry("1", None)]
  }

  method AllowDomain(r: TtlStore, remoteAddr: string, domain: string, mode: Option<string>) returns (reply: AllowReply)
    modifies r
    ensures r.entries == AllowWrite(old(r.entries), old(r.now), ClientIp(remoteAddr), PredictName(domain), mode)
    ensures r.now == old(r.now)
    ensures reply == AllowReply("success", PredictName(domain), mode == Some(TempMode))
  {
    var name := PredictName(domain);
    var client := ClientIp(remoteAddr);
    if mode == Some(TempMode) {
      r.SetEx(AllowKey(client, name), TempAllowSeconds, "1");
      reply := AllowReply("success", name, true);
    } else {
      r.Set(WhitelistKey(client, name), "1");
      reply := AllowReply("success", name, false);
    }
  }

  /** Granting the same allowance twice at the same time leaves the store as
      granting it once. */
  lemma AllowIdempotent(entries: map<string, Entry>, now: int, client: string, name: string, mode: Option<string>)
    ensures AllowWrite(AllowWrite(entries, now, client, name, mode), now, client, name, mode)
         == AllowWrite(entries, now, client, name, mode)
  {
  }

  /** An allowance never touches a block mark, so the status reply for every
      client and domain, at every later time, is what it was before. */
  lemma AllowKeepsCheck(entries: map<string, Entry>, now: int, client: string, name: string, mode: Option<string>,
                        later: int, remoteAddr: string, domain: Option<string>)
    ensures CheckBlock(AllowWrite(entries, now, client, name, mode), later, remoteAddr, domain)
         == CheckBlock(entries, later, remoteAddr, domain)
  {
    var after := AllowWrite(entries, now, client, name, mode);
    var target := AllowTarget(client, name, mode);
    forall k | IsBlockMarkKey(k) ensures Lookup(after, later, k) == Lookup(entries, later, k) {
      assert k != target;
    }
    CheckBlockReadsOnlyBlockMarks(after, entries, later, remoteAddr, domain);
  }

  /** A temporary allowance granted at `now` reads as "1" up to second
      now + 1800 and as absent afterwards. */
  lemma TempAllowExpires(entries: map<string, Entry>, now: int, client: string, name: string, later: int)
    requires now <= later
    ensures Lookup(AllowWrite(entries, now, client, name, Some(TempMode)), later, AllowKey(client, name))
         == if later <= now + TempAllowSeconds then Some("1") else None
  {
  }

  /** A temporary allowance granted now is gone once 1801 seconds have
      passed on the store's clock, while the status reply is what it was
      before the grant. */
  method TempAllowanceLapses(r: TtlStore, remoteAddr: string, domain: string)
    modifies r
    ensures r.now == old(r.now) + TempAllowSeconds + 1
    ensures Lookup(r.entries, r.now, AllowKey(ClientIp(remoteAddr), PredictName(domain))) == None
    ensures forall a, d :: CheckBlock(r.entries, r.now, a, d) == CheckBlock(old(r.entries), r.now, a, d)
  {
    ghost var before := r.entries;
    var reply := AllowDomain(r, remoteAddr, domain, Some(TempMode));
    ghost var granted := r.now;
    r.Advance(TempAllowSeconds + 1);
    TempAllowExpires(before, granted, ClientIp(remoteAddr), PredictName(domain), r.now);
    forall a, d ensures CheckBlock(r.entries, r.now, a, d) == CheckBlock(before, r.now, a, d) {
      AllowKeepsCheck(before, granted, ClientIp(remoteAddr), PredictName(domain), Some(TempMode), r.now, a, d);
    }
  }

  /** A permanent allowance reads as "1" at every time. */
  lemma WhitelistNeverExpires(entries: map<string, Entry>, now: int, client: string, name: string, mode: Option<string>, later: int)
    requires mode != Some(TempMode)
    ensures Lookup(AllowWrite(entries, now, client, name, mode), later, WhitelistKey(client, name)) == Some("1")
  {
  }

  /** An allowance for one (client, domain key) leaves the allowances of
      every other pair as they were, as long as domain keys have no colon. */
  lemma AllowIsolatesPairs(entries: map<string, Entry>, now: int, client: string, name: string, mode: Option<string>,
                           otherClient: string, otherName: string, later: int)
    requires HasNoColon(name) && HasNoColon(otherName)
    requires otherClient != client || otherName != name
    ensures Lookup(AllowWrite(entries, now, client, name, mode), later, AllowKey(otherClient, otherName))
         == Lookup(entries, later, AllowKey(otherClient, otherName))
    ensures Lookup(AllowWrite(entries, now, client, name, mode), later, WhitelistKey(otherClient, otherName))
         == Lookup(entries, later, WhitelistKey(otherClient, otherName))
  {
    var target := AllowTarget(client, name, mode);
    if mode == Some(TempMode) && target == AllowKey(otherClient, otherName) {
      StoreKeyInjective("allow", client, name, otherClient, otherName);
    }
    if mode != Some(TempMode) && target == WhitelistKey(otherClient, otherName) {
      StoreKeyInjective("whitelist", client, name, otherClient, otherName);
    }
  }
  /** The same isolation for colon-free (IPv4) clients, whatever the domain
      keys hold. */
  lemma AllowIsolatesPairsForColonFreeClients(entries: map<string, Entry>, now: int, client: string, name: string,
                                              mode: Option<string>, otherClient: string, otherName: string, later: int)
    requires HasNoColon(client) && HasNoColon(otherClient)
    requires otherClient != client || otherName != name
    ensures Lookup(AllowWrite(entries, now, client, name, mode), later, AllowKey(otherClient, otherName))
         == Lookup(entries, later, AllowKey(otherClient, otherName))
    ensures Lookup(AllowWrite(entries, now, client, name, mode), later, WhitelistKey(otherClient, otherName))
         == Lookup(entries, later, WhitelistKey(otherClient, otherName))
  {
    var target := AllowTarget(client, name, mode);
    if mode == Some(TempMode) && target == AllowKey(otherClient, otherName) {
      StoreKeyInjectiveForColonFreeClients("allow", client, name, otherClient, otherName);
    }
    if mode != Some(TempMode) && target == WhitelistKey(otherClient, otherName) {
      StoreKeyInjectiveForColonFreeClients("whitelist", client, name, otherClient, otherName);
    }
  }

  // ---------------------------------------------------------------------
  // report_false_positive and before_request
  // ---------------------------------------------------------------------

  /** The reply of a false-positive report: success, or the 400 error when
      the domain key is empty. */
  datatype ReportReply = ReportSuccess | ReportError {
    function HttpStatus(): (status: int)
      ensures status == 400 <==> ReportError?
      ensures status == 200 <==> ReportSuccess?
    {
      if ReportError? then 400 else 200
    }
  }

  /** The report is keyed by the domain key: an empty key ("" or "www." in
      any letter case) is rejected and counts nothing; any other key adds
      exactly one to its own counter. The store is not an argument: a report
      never changes policy state. */
  method ReportFalsePositive(metrics: Registry, domain: string) returns (reply: ReportReply)
    modifies metrics
    ensures reply == ReportError <==> PredictName(domain) == ""
    ensures reply == ReportError ==> metrics.falsePositives == old(metrics.falsePositives)
    ensures reply == ReportSuccess ==> metrics.falsePositives == Bump(old(metrics.falsePositives), PredictName(domain))
    ensures metrics.requests == old(metrics.requests)
  {
    var name := PredictName(domain);
    if name == "" {
      reply := ReportError;
    } else {
      metrics.IncFalsePositive(name);
      reply := ReportSuccess;
    }
  }

  /** Two reports spelled "Ads.Example.com" and "ads.example.com" add two to
      the one counter "ads.example.com". */
  lemma ReportsShareCounter(counters: map<string, nat>)
    ensures PredictName("Ads.Example.com") == "ads.example.com"
    ensures PredictName("ads.example.com") == "ads.example.com"
    ensures Count(Bump(Bump(counters, PredictName("Ads.Example.com")), PredictName("ads.example.com")), "ads.example.com")
         == Count(counters, "ads.example.com") + 2
  {
    assert Lower("Ads.Example.com") == "ads.example.com";
    assert Lower("ads.example.com") == "ads.example.com";
    assert !StartsWith("ads.example.com", Www) by {
      assert "ads.example.com"[..4][0] != Www[0];
    }
  }

  /** Every request, whatever its route, adds one to the request counter. */
  method BeforeRequest(metrics: Registry)
    modifies metrics
    ensures metrics.requests == old(metrics.requests) + 1
    ensures metrics.falsePositives == old(metrics.falsePositives)
  {
    metrics.IncRequests();
  }
}
