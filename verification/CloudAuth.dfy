/** Credential profiles of core/cloud_auth.py: cooldowns, rotation and lookup. */
module CloudAuth {
  import opened Wrappers
  import opened Sequences
  import opened StringOrder

  const COOLDOWN_BASE_SECONDS := 60
  const COOLDOWN_MAX_SECONDS := 3600
  const BILLING_COOLDOWN_BASE := 18000
  const BILLING_COOLDOWN_MAX := 86400

  // ----- Backoff -----

  function Pow2(n: nat): (p: nat)
    ensures p >= 1
  {
    if n == 0 then 1 else 2 * Pow2(n - 1)
  }

  function Base(billing: bool): nat {
    if billing then BILLING_COOLDOWN_BASE else COOLDOWN_BASE_SECONDS
  }

  function Cap(billing: bool): nat {
    if billing then BILLING_COOLDOWN_MAX else COOLDOWN_MAX_SECONDS
  }

  /** The cooldown after the k-th failure in a row. */
  function Backoff(billing: bool, k: nat): nat
    requires k >= 1
  {
    var b := Base(billing) * Pow2(k - 1);
    if Cap(billing) < b then Cap(billing) else b
  }

  lemma {:induction false} Pow2Mono(j: nat, k: nat)
    requires j <= k
    ensures Pow2(j) <= Pow2(k)
    decreases k - j
  {
    if j < k {
      Pow2Mono(j, k - 1);
    }
  }

  lemma BackoffMono(billing: bool, j: nat, k: nat)
    requires 1 <= j <= k
    ensures Base(billing) <= Backoff(billing, j) <= Backoff(billing, k) <= Cap(billing)
  {
    Pow2Mono(j - 1, k - 1);
  }

  /** The first failure costs the base, and each further one doubles the wait until the cap. */
  lemma BackoffDoubles(billing: bool, k: nat)
    requires k >= 1
    ensures Backoff(billing, 1) == if billing then 18000 else 60
    ensures var twice, cap := 2 * Backoff(billing, k), if billing then 86400 else 3600;
      Backoff(billing, k + 1) == if twice < cap then twice else cap
  {
    assert Pow2(0) == 1 && Pow2(k) == 2 * Pow2(k - 1);
  }

  /** What the tracker holds. */
  datatype Cooldowns = Cooldowns(failures: map<string, nat>, until: map<string, real>)

  function FailureCount(c: Cooldowns, id: string): nat {
    if id in c.failures then c.failures[id] else 0
  }

  function Deadline(c: Cooldowns, id: string): real {
    if id in c.until then c.until[id] else 0.0
  }

  function Fail(c: Cooldowns, id: string, billing: bool, now: real): Cooldowns {
    var k := FailureCount(c, id) + 1;
    Cooldowns(c.failures[id := k], c.until[id := now + Backoff(billing, k) as real])
  }

  class CooldownTracker {
    var failures: map<string, nat>
    var until: map<string, real>

    function State(): Cooldowns
      reads this
    {
      Cooldowns(failures, until)
    }

    constructor ()
      ensures State() == Cooldowns(map[], map[])
    {
      failures, until := map[], map[];
    }

    method RecordFailure(id: string, billing: bool, now: real)
      modifies this
      ensures State() == Fail(old(State()), id, billing, now)
    {
      var count := (if id in failures then failures[id] else 0) + 1;
      failures := failures[id := count];
      var base := if billing then BILLING_COOLDOWN_BASE else COOLDOWN_BASE_SECONDS;
      var cap := if billing then BILLING_COOLDOWN_MAX else COOLDOWN_MAX_SECONDS;
      var backoff := base * Pow2(count - 1);
      if cap < backoff {
        backoff := cap;
      }
      until := until[id := now + backoff as real];
    }

    predicate CooledDown(id: string, now: real)
      reads this
    {
      now < Deadline(State(), id)
    }

    method Clear(id: string)
      modifies this
      ensures State() == Cooldowns(old(failures) - {id}, old(until) - {id})
    {
      failures, until := failures - {id}, until - {id};
    }
  }

  /** A run of failures of one profile, all of one kind, at the given times. */
  function FailAll(c: Cooldowns, id: string, billing: bool, times: seq<real>): Cooldowns {
    if times == [] then c
    else Fail(FailAll(c, id, billing, times[..|times| - 1]), id, billing, times[|times| - 1])
  }

  predicate Monotone(times: seq<real>) {
    forall i, j :: 0 <= i < j < |times| ==> times[i] <= times[j]
  }

  lemma {:induction false} FailuresCounted(c: Cooldowns, id: string, billing: bool, times: seq<real>)
    ensures var d := FailAll(c, id, billing, times);
      && FailureCount(d, id) == FailureCount(c, id) + |times|
      && (forall x :: x != id ==> FailureCount(d, x) == FailureCount(c, x) && Deadline(d, x) == Deadline(c, x))
    ensures times != [] ==>
      Deadline(FailAll(c, id, billing, times), id) ==
      times[|times| - 1] + Backoff(billing, FailureCount(c, id) + |times|) as real
  {
    if times == [] {
    } else {
      FailuresCounted(c, id, billing, times[..|times| - 1]);
    }
  }

  /** While failures of one kind repeat, the deadline never moves earlier and never passes
      the time of the last failure plus the cap; other profiles are untouched. */
  lemma RepeatedFailures(c: Cooldowns, id: string, billing: bool, times: seq<real>, i: nat, j: nat)
    requires Monotone(times) && 1 <= i <= j <= |times|
    ensures var early, late := FailAll(c, id, billing, times[..i]), FailAll(c, id, billing, times[..j]);
      && Deadline(early, id) <= Deadline(late, id) <= times[j - 1] + Cap(billing) as real
      && times[j - 1] + Base(billing) as real <= Deadline(late, id)
  {
    FailuresCounted(c, id, billing, times[..i]);
    FailuresCounted(c, id, billing, times[..j]);
    BackoffMono(billing, FailureCount(c, id) + i, FailureCount(c, id) + j);
  }

  /** Mixing kinds can move the deadline earlier, though only when a non-billing failure
      follows a billing one too soon. */
  lemma DeadlineMovesEarlierExactlyWhen(c: Cooldowns, id: string, first: bool, second: bool, t: real, u: real)
    requires t <= u
    ensures var k := FailureCount(c, id) + 1;
      var once := Fail(c, id, first, t);
      Deadline(Fail(once, id, second, u), id) < Deadline(once, id) <==>
        first && !second && u - t < (Backoff(true, k) - Backoff(false, k + 1)) as real
  {
    var k := FailureCount(c, id) + 1;
    BackoffMono(first, k, k + 1);
    BackoffMono(second, k, k + 1);
  }

  lemma BillingThenOrdinary(id: string)
    ensures var c := Fail(Cooldowns(map[], map[]), id, true, 0.0);
      Deadline(c, id) == 18000.0 && Deadline(Fail(c, id, false, 1.0), id) == 121.0
  {
    assert Pow2(1) == 2;
  }

  // ----- Profiles -----

  datatype AuthType = ApiKey | OAuth

  datatype AuthProfile = AuthProfile(
    profileId: string,
    providerId: string,
    authType: AuthType,
    apiKey: string,
    accessToken: string,
    refreshToken: string,
    expiresAt: real,
    email: string)
  {
    predicate Expired(now: real) {
      authType.OAuth? && expiresAt > 0.0 && now > expiresAt
    }
  }

  datatype Value = Str(s: string) | Num(r: real)

  function ToDict(p: AuthProfile): map<string, Value> {
    map["profile_id" := Str(p.profileId), "provider_id" := Str(p.providerId),
        "auth_type" := Str(if p.authType.ApiKey? then "api_key" else "oauth"),
        "api_key" := Str(p.apiKey), "access_token" := Str(p.accessToken),
        "refresh_token" := Str(p.refreshToken), "expires_at" := Num(p.expiresAt), "email" := Str(p.email)]
  }

  function GetStr(d: map<string, Value>, key: string, default: string): Option<string> {
    if key !in d then Some(default) else if d[key].Str? then Some(d[key].s) else None
  }

  /** None stands for the ValueError of an unknown auth_type (or a value of another type). */
  function FromDict(d: map<string, Value>): Option<AuthProfile> {
    var authType := GetStr(d, "auth_type", "api_key");
    var id, provider := GetStr(d, "profile_id", ""), GetStr(d, "provider_id", "");
    var key, access, refresh := GetStr(d, "api_key", ""), GetStr(d, "access_token", ""), GetStr(d, "refresh_token", "");
    var email := GetStr(d, "email", "");
    var expires :=
      if "expires_at" !in d then Some(0.0) else if d["expires_at"].Num? then Some(d["expires_at"].r) else None;
    if authType.None? || id.None? || provider.None? || key.None? then None
    else if access.None? || refresh.None? || email.None? || expires.None? then None
    else if authType.value != "api_key" && authType.value != "oauth" then None
    else Some(AuthProfile(id.value, provider.value, if authType.value == "api_key" then ApiKey else OAuth,
                          key.value, access.value, refresh.value, expires.value, email.value))
  }

  lemma DictRoundTrip(p: AuthProfile)
    ensures FromDict(ToDict(p)) == Some(p)
  {
  }

  predicate TextField(d: map<string, Value>, key: string, field: string) {
    if key in d then d[key] == Str(field) else field == ""
  }

  /** Each field is read from its own key; a missing text is empty, a missing expiry 0, and a
      missing type that of an API key. */
  lemma FromDictFields(d: map<string, Value>)
    requires FromDict(d).Some?
    ensures var p := FromDict(d).value;
      && TextField(d, "profile_id", p.profileId) && TextField(d, "provider_id", p.providerId)
      && TextField(d, "api_key", p.apiKey) && TextField(d, "access_token", p.accessToken)
      && TextField(d, "refresh_token", p.refreshToken) && TextField(d, "email", p.email)
      && (if "expires_at" in d then d["expires_at"] == Num(p.expiresAt) else p.expiresAt == 0.0)
      && (p.authType.OAuth? <==> "auth_type" in d && d["auth_type"] == Str("oauth"))
      && (p.authType.ApiKey? <==> "auth_type" !in d || d["auth_type"] == Str("api_key"))
  {
  }

  /** str.partition(":"): the text before the first colon and the text after it. */
  function Partition(s: string): (string, string) {
    if s == [] then ([], [])
    else if s[0] == ':' then ([], s[1..])
    else var rest := Partition(s[1..]); ([s[0]] + rest.0, rest.1)
  }

  lemma {:induction false} PartitionOfId(provider: string, name: string)
    ensures ':' !in provider ==> Partition(provider + ":" + name) == (provider, name)
    ensures ':' in provider ==> |Partition(provider + ":" + name).0| < |provider|
  {
    var s := provider + ":" + name;
    if provider == [] {
      assert s == ":" + name && s[1..] == name;
    } else {
      PartitionOfId(provider[1..], name);
      assert s[1..] == provider[1..] + ":" + name;
      assert provider == [provider[0]] + provider[1..];
    }
  }

  lemma {:induction false} PartitionOfPlain(s: string)
    requires ':' !in s
    ensures Partition(s) == (s, "")
  {
    if s == [] {
    } else {
      PartitionOfPlain(s[1..]);
      assert [s[0]] + s[1..] == s;
    }
  }

  // ----- The credential table of a provider, ordered by key -----

  type Rows = seq<(string, AuthProfile)>

  function Put(rows: Rows, name: string, p: AuthProfile): Rows {
    if rows == [] || Precedes(name, rows[0].0) then [(name, p)] + rows
    else if rows[0].0 == name then [(name, p)] + rows[1..]
    else [rows[0]] + Put(rows[1..], name, p)
  }

  function Lookup(rows: Rows, name: string): Option<AuthProfile> {
    if rows == [] then None
    else if rows[0].0 == name then Some(rows[0].1)
    else Lookup(rows[1..], name)
  }

  function Delete(rows: Rows, name: string): Rows {
    if rows == [] then []
    else if rows[0].0 == name then Delete(rows[1..], name)
    else [rows[0]] + Delete(rows[1..], name)
  }

  lemma {:induction false} LookupPut(rows: Rows, name: string, p: AuthProfile, other: string)
    ensures Lookup(Put(rows, name, p), other) == if other == name then Some(p) else Lookup(rows, other)
    ensures forall r :: r in Put(rows, name, p) ==> r == (name, p) || r in rows
  {
    if rows == [] {
    } else {
      LookupPut(rows[1..], name, p, other);
      assert ([(name, p)] + rows)[1..] == rows && ([(name, p)] + rows[1..])[1..] == rows[1..];
      assert ([rows[0]] + Put(rows[1..], name, p))[1..] == Put(rows[1..], name, p);
      assert rows == [rows[0]] + rows[1..];
    }
  }

  lemma {:induction false} LookupDelete(rows: Rows, name: string, other: string)
    ensures Lookup(Delete(rows, name), other) == if other == name then None else Lookup(rows, other)
    ensures forall r :: r in Delete(rows, name) ==> r in rows
  {
    if rows == [] {
    } else {
      LookupDelete(rows[1..], name, other);
      if rows[0].0 != name {
        assert ([rows[0]] + Delete(rows[1..], name))[1..] == Delete(rows[1..], name);
      }
      assert rows == [rows[0]] + rows[1..];
    }
  }

  lemma {:induction false} LookupIsRow(rows: Rows, name: string)
    ensures Lookup(rows, name).Some? ==> (name, Lookup(rows, name).value) in rows
  {
    if rows == [] {
    } else {
      LookupIsRow(rows[1..], name);
    }
  }

  predicate Ordered(rows: Rows) {
    forall i, j :: 0 <= i < j < |rows| ==> Precedes(rows[i].0, rows[j].0)
  }

  lemma {:induction false} PutKeepsOrder(rows: Rows, name: string, p: AuthProfile)
    requires Ordered(rows)
    ensures Ordered(Put(rows, name, p))
  {
    hide Precedes;
    if rows == [] {
    } else {
      PrecedesIsTotal(name, rows[0].0);
      if Precedes(name, rows[0].0) {
        forall j | 0 <= j < |rows| ensures Precedes(name, rows[j].0) {
          if j > 0 {
            PrecedesIsTransitive(name, rows[0].0, rows[j].0);
          }
        }
      } else if rows[0].0 != name {
        var rest := Put(rows[1..], name, p);
        PutKeepsOrder(rows[1..], name, p);
        LookupPut(rows[1..], name, p, name);
        forall j | 0 <= j < |rest| ensures Precedes(rows[0].0, rest[j].0) {
          assert rest[j] in rest;
          if rest[j] != (name, p) {
            assert rest[j] in rows[1..];
          }
        }
      }
    }
  }

  lemma {:induction false} DeleteKeepsOrder(rows: Rows, name: string)
    requires Ordered(rows)
    ensures Ordered(Delete(rows, name))
  {
    hide Precedes;
    if rows == [] {
    } else {
      DeleteKeepsOrder(rows[1..], name);
      var rest := Delete(rows[1..], name);
      LookupDelete(rows[1..], name, name);
      forall j | 0 <= j < |rest| ensures Precedes(rows[0].0, rest[j].0) {
        assert rest[j] in rest && rest[j] in rows[1..];
      }
    }
  }

  // ----- Listing -----

  /** The rows of the given providers, one provider after the other. */
  function Gathered(credentials: map<string, Rows>, providers: seq<string>): Rows {
    if providers == [] then []
    else
      (if providers[0] in credentials then credentials[providers[0]] else []) + Gathered(credentials, providers[1..])
  }

  /** list_profiles: the empty provider id stands for all providers. */
  function Listed(credentials: map<string, Rows>, provider: string): Rows {
    Gathered(credentials, if provider == "" then Ascending(credentials.Keys) else [provider])
  }

  lemma {:induction false} GatheredExactly(credentials: map<string, Rows>, providers: seq<string>)
    ensures forall r :: r in Gathered(credentials, providers) <==>
      exists p :: p in providers && p in credentials && r in credentials[p]
  {
    if providers == [] {
    } else {
      GatheredExactly(credentials, providers[1..]);
      assert providers == [providers[0]] + providers[1..];
    }
  }

  /** A row is listed exactly when it is stored under the provider asked for, or under any
      provider when none is asked for. */
  lemma ListedExactly(credentials: map<string, Rows>, provider: string)
    ensures forall r :: r in Listed(credentials, provider) <==>
      exists p :: p in credentials && (provider == "" || p == provider) && r in credentials[p]
    ensures provider != "" && provider in credentials ==> Listed(credentials, provider) == credentials[provider]
  {
    GatheredExactly(credentials, if provider == "" then Ascending(credentials.Keys) else [provider]);
    if provider != "" && provider in credentials {
      assert Gathered(credentials, [provider]) == credentials[provider] + Gathered(credentials, []);
    }
  }

  /** Every provider's rows are ordered and hold its own profiles. */
  predicate Filed(credentials: map<string, Rows>) {
    forall p :: p in credentials ==>
      Ordered(credentials[p]) && forall i :: 0 <= i < |credentials[p]| ==> credentials[p][i].1.providerId == p
  }

  predicate ListedBefore(r: (string, AuthProfile), s: (string, AuthProfile)) {
    Precedes(r.1.providerId, s.1.providerId) || (r.1.providerId == s.1.providerId && Precedes(r.0, s.0))
  }

  lemma {:induction false} GatheredInOrder(credentials: map<string, Rows>, providers: seq<string>)
    requires Filed(credentials) && forall i, j :: 0 <= i < j < |providers| ==> Precedes(providers[i], providers[j])
    ensures forall i, j :: 0 <= i < j < |Gathered(credentials, providers)| ==>
      ListedBefore(Gathered(credentials, providers)[i], Gathered(credentials, providers)[j])
    ensures forall r :: r in Gathered(credentials, providers) ==> r.1.providerId in providers
  {
    hide Precedes;
    if providers == [] {
    } else {
      GatheredInOrder(credentials, providers[1..]);
      var first := if providers[0] in credentials then credentials[providers[0]] else [];
      var rest := Gathered(credentials, providers[1..]);
      forall i, j | 0 <= i < j < |first + rest| ensures ListedBefore((first + rest)[i], (first + rest)[j]) {
        if i < |first| <= j {
          assert rest[j - |first|] in rest;
        }
      }
    }
  }

  /** The listing is ordered by provider, and by key within a provider. */
  lemma ListedInOrder(credentials: map<string, Rows>, provider: string)
    requires Filed(credentials)
    ensures forall i, j :: 0 <= i < j < |Listed(credentials, provider)| ==>
      ListedBefore(Listed(credentials, provider)[i], Listed(credentials, provider)[j])
  {
    GatheredInOrder(credentials, if provider == "" then Ascending(credentials.Keys) else [provider]);
  }

  // ----- Rotation -----

  /** The profiles that are neither cooling down nor expired, in listing order. */
  function Available(rows: Rows, c: Cooldowns, now: real): (r: seq<AuthProfile>)
    ensures forall p :: p in r ==> !(now < Deadline(c, p.profileId)) && !p.Expired(now)
  {
    if rows == [] then []
    else
      var p := rows[|rows| - 1].1;
      Available(rows[..|rows| - 1], c, now) + if now < Deadline(c, p.profileId) || p.Expired(now) then [] else [p]
  }

  /** Not cooling down, and not a token whose time of expiry is known and past. */
  predicate Usable(p: AuthProfile, c: Cooldowns, now: real) {
    && Deadline(c, p.profileId) <= now
    && !(p.authType == OAuth && 0.0 < p.expiresAt < now)
  }

  lemma {:induction false} AvailableIsFiltered(rows: Rows, c: Cooldowns, now: real)
    ensures var kept := Filter(rows, (r: (string, AuthProfile)) => Usable(r.1, c, now));
      |Available(rows, c, now)| == |kept| && forall k :: 0 <= k < |kept| ==> Available(rows, c, now)[k] == kept[k].1
  {
    if rows == [] {
    } else {
      AvailableIsFiltered(rows[..|rows| - 1], c, now);
    }
  }

  /** The available profiles stand in the order of the listing, which the index runs through. */
  lemma AvailableInOrder(rows: Rows, c: Cooldowns, now: real) returns (pos: seq<nat>)
    ensures Lists(pos, rows, (r: (string, AuthProfile)) => Usable(r.1, c, now))
    ensures |Available(rows, c, now)| == |pos|
    ensures forall k :: 0 <= k < |pos| ==> pos[k] < |rows| && Available(rows, c, now)[k] == rows[pos[k]].1
  {
    AvailableIsFiltered(rows, c, now);
    pos := FilterInOrder(rows, (r: (string, AuthProfile)) => Usable(r.1, c, now));
  }

  lemma {:induction false} AvailableExactly(rows: Rows, c: Cooldowns, now: real)
    ensures forall p :: p in Available(rows, c, now) <==>
      (exists r :: r in rows && r.1 == p) && !(now < Deadline(c, p.profileId)) && !p.Expired(now)
  {
    if rows == [] {
    } else {
      AvailableExactly(rows[..|rows| - 1], c, now);
      assert rows == rows[..|rows| - 1] + [rows[|rows| - 1]];
    }
  }

  /** index % n, for an index that at most reaches n unless profiles have disappeared. */
  function Wrap(index: nat, n: nat): (r: nat)
    requires n > 0
    ensures r < n && (index < n ==> r == index) && (index == n ==> r == 0)
  {
    index % n
  }

  /** An index that profiles have dropped out below is reduced by a multiple of their number. */
  lemma WrapIsRemainder(index: nat, n: nat) returns (rounds: nat)
    requires n > 0
    ensures index == rounds * n + Wrap(index, n)
  {
    rounds := index / n;
  }

  /** What `count` consecutive calls return while the available profiles stay the same. */
  function Rotation(available: seq<AuthProfile>, index: nat, count: nat): (r: seq<AuthProfile>)
    requires available != []
    ensures |r| == count
    decreases count
  {
    if count == 0 then []
    else [available[Wrap(index, |available|)]] + Rotation(available, Wrap(index, |available|) + 1, count - 1)
  }

  lemma {:induction false} RotationRun(available: seq<AuthProfile>, index: nat, count: nat)
    requires available != [] && index + count <= |available|
    ensures Rotation(available, index, count) == available[index..index + count]
    decreases count
  {
    hide Wrap;
    if count == 0 {
    } else {
      RotationRun(available, index + 1, count - 1);
      assert available[index..index + count] == [available[index]] + available[index + 1..index + 1 + (count - 1)];
    }
  }

  lemma RotationFromEnd(available: seq<AuthProfile>, count: nat)
    requires available != []
    ensures Rotation(available, |available|, count) == Rotation(available, 0, count)
  {
    hide Wrap;
  }

  /** Up to the end of the list, then on from its start. */
  lemma {:induction false} RotationSplit(available: seq<AuthProfile>, index: nat, rest: nat)
    requires available != [] && index < |available|
    ensures Rotation(available, index, |available| - index + rest)
         == available[index..] + Rotation(available, 0, rest)
    decreases |available| - index
  {
    hide Wrap;
    if index == |available| - 1 {
      assert available[index..] == [available[index]];
      RotationFromEnd(available, rest);
    } else {
      RotationSplit(available, index + 1, rest);
      assert available[index..] == [available[index]] + available[index + 1..];
    }
  }

  lemma RotationWrap(available: seq<AuthProfile>, index: nat, count: nat)
    requires available != []
    ensures Rotation(available, index, count) == Rotation(available, Wrap(index, |available|), count)
    ensures count > 0 ==>
      Rotation(available, index, count) ==
      [available[Wrap(index, |available|)]] + Rotation(available, Wrap(index, |available|) + 1, count - 1)
  {
    hide Wrap;
  }

  /** Any n consecutive calls on n available profiles return each exactly once, from any
      starting index. */
  lemma RotationIsFair(available: seq<AuthProfile>, index: nat)
    requires available != []
    ensures var r := Wrap(index, |available|);
      Rotation(available, index, |available|) == available[r..] + available[..r]
    ensures multiset(Rotation(available, index, |available|)) == multiset(available)
  {
    hide Wrap, Rotation;
    var r := Wrap(index, |available|);
    RotationWrap(available, index, |available|);
    RotationSplit(available, r, r);
    RotationRun(available, 0, r);
    assert available == available[..r] + available[r..];
  }

  lemma SavedIsFiled(credentials: map<string, Rows>, p: AuthProfile, name: string)
    requires Filed(credentials)
    ensures var rows := if p.providerId in credentials then credentials[p.providerId] else [];
      Filed(credentials[p.providerId := Put(rows, name, p)])
  {
    hide Precedes;
    var rows := if p.providerId in credentials then credentials[p.providerId] else [];
    PutKeepsOrder(rows, name, p);
    LookupPut(rows, name, p, name);
    var after := Put(rows, name, p);
    forall i | 0 <= i < |after| ensures after[i].1.providerId == p.providerId {
      assert after[i] in after;
    }
  }

  lemma DeletedIsFiled(credentials: map<string, Rows>, provider: string, name: string)
    requires Filed(credentials) && provider in credentials
    ensures Filed(credentials[provider := Delete(credentials[provider], name)])
  {
    hide Precedes;
    var rows := credentials[provider];
    DeleteKeepsOrder(rows, name);
    LookupDelete(rows, name, name);
    var after := Delete(rows, name);
    forall i | 0 <= i < |after| ensures after[i].1.providerId == provider {
      assert after[i] in after && after[i] in rows;
    }
  }

  class CloudAuthManager {
    const cooldowns: CooldownTracker
    var credentials: map<string, Rows>
    var rotationIndex: map<string, nat>

    /** Rows are filed under the provider their profile names, in order. */
    predicate Valid()
      reads this
    {
      Filed(credentials)
    }

    function RowsOf(provider: string): Rows
      reads this
    {
      if provider in credentials then credentials[provider] else []
    }

    constructor ()
      ensures Valid() && credentials == map[] && rotationIndex == map[]
      ensures fresh(cooldowns) && cooldowns.State() == Cooldowns(map[], map[])
    {
      cooldowns := new CooldownTracker();
      credentials, rotationIndex := map[], map[];
    }

    function Saved(p: AuthProfile): map<string, Rows>
      reads this
    {
      credentials[p.providerId := Put(RowsOf(p.providerId), Partition(p.profileId).1, p)]
    }

    method SaveProfile(p: AuthProfile)
      requires Valid()
      modifies this`credentials
      ensures Valid() && credentials == old(Saved(p))
    {
      SavedIsFiled(credentials, p, Partition(p.profileId).1);
      credentials := Saved(p);
    }

    function GetProfile(profileId: string): Option<AuthProfile>
      reads this
    {
      var (provider, name) := Partition(profileId);
      if name == "" then None else Lookup(RowsOf(provider), name)
    }

    lemma SavedIsFound(p: AuthProfile, name: string)
      requires Valid() && p.profileId == p.providerId + ":" + name
      requires p.providerId in credentials &&
        exists rows :: credentials[p.providerId] == Put(rows, Partition(p.profileId).1, p)
      ensures GetProfile(p.profileId) == Some(p) <==> ':' !in p.providerId && name != ""
    {
      PartitionOfId(p.providerId, name);
      var rows :| credentials[p.providerId] == Put(rows, Partition(p.profileId).1, p);
      var (provider, key) := Partition(p.profileId);
      LookupPut(rows, key, p, key);
      LookupIsRow(RowsOf(provider), key);
    }

    /** The profile just added is found again by its id exactly when the provider's name
        has no colon and the label is not empty. */
    method AddApiKey(provider: string, apiKey: string, name: string) returns (p: AuthProfile)
      requires Valid()
      modifies this`credentials
      ensures Valid() && p == AuthProfile(provider + ":" + name, provider, ApiKey, apiKey, "", "", 0.0, "")
      ensures credentials == old(Saved(p))
      ensures GetProfile(p.profileId) == Some(p) <==> ':' !in provider && name != ""
    {
      p := AuthProfile(provider + ":" + name, provider, ApiKey, apiKey, "", "", 0.0, "");
      SaveProfile(p);
      SavedIsFound(p, name);
    }

    method AddOAuthToken(provider: string, accessToken: string, refreshToken: string, expiresAt: real, email: string)
      returns (p: AuthProfile)
      requires Valid()
      modifies this`credentials
      ensures Valid() && p.profileId == provider + ":" + (if email != "" then email else "default")
      ensures p.authType == OAuth && p.providerId == provider && p.expiresAt == expiresAt && p.email == email
      ensures p.accessToken == accessToken && p.refreshToken == refreshToken
      ensures credentials == old(Saved(p))
      ensures GetProfile(p.profileId) == Some(p) <==> ':' !in provider
    {
      var name := if email != "" then email else "default";
      p := AuthProfile(provider + ":" + name, provider, OAuth, "", accessToken, refreshToken, expiresAt, email);
      SaveProfile(p);
      SavedIsFound(p, name);
    }

    method RemoveProfile(profileId: string) returns (removed: bool)
      requires Valid()
      modifies this`credentials, cooldowns
      ensures Valid() && GetProfile(profileId) == None
      ensures removed == (Partition(profileId).1 != "")
      ensures var (provider, name) := Partition(profileId);
        credentials == if removed && provider in old(credentials)
                       then old(credentials)[provider := Delete(old(credentials)[provider], name)]
                       else old(credentials)
      ensures cooldowns.State() ==
        if removed then Cooldowns(old(cooldowns.failures) - {profileId}, old(cooldowns.until) - {profileId})
        else old(cooldowns.State())
      ensures removed ==> FailureCount(cooldowns.State(), profileId) == 0 && !cooldowns.CooledDown(profileId, 0.0)
    {
      var (provider, name) := Partition(profileId);
      if name == "" {
        return false;
      }
      LookupDelete(RowsOf(provider), name, name);
      if provider in credentials {
        DeletedIsFiled(credentials, provider, name);
        credentials := credentials[provider := Delete(credentials[provider], name)];
      }
      cooldowns.Clear(profileId);
      return true;
    }

    /** Never a profile that is cooling down or expired; none only if every one is. */
    method NextAvailableProfile(provider: string, now: real) returns (next: Option<AuthProfile>)
      modifies this`rotationIndex
      ensures var available := Available(Listed(credentials, provider), cooldowns.State(), now);
        var index := if provider in old(rotationIndex) then old(rotationIndex)[provider] else 0;
        if available == [] then next == None && rotationIndex == old(rotationIndex)
        else
          && next == Some(available[Wrap(index, |available|)])
          && rotationIndex == old(rotationIndex)[provider := Wrap(index, |available|) + 1]
      ensures next.Some? ==> !cooldowns.CooledDown(next.value.profileId, now) && !next.value.Expired(now)
      ensures next.None? <==> forall r :: r in Listed(credentials, provider) ==>
        cooldowns.CooledDown(r.1.profileId, now) || r.1.Expired(now)
    {
      hide Available, Listed, Wrap, AuthProfile.Expired;
      var available := Available(Listed(credentials, provider), cooldowns.State(), now);
      AvailableExactly(Listed(credentials, provider), cooldowns.State(), now);
      if |available| == 0 {
        forall r | r in Listed(credentials, provider)
          ensures cooldowns.CooledDown(r.1.profileId, now) || r.1.Expired(now) {
          assert r.1 !in available;
        }
        return None;
      }
      var index := Wrap(if provider in rotationIndex then rotationIndex[provider] else 0, |available|);
      rotationIndex := rotationIndex[provider := index + 1];
      assert available[index] in available;
      return Some(available[index]);
    }

    function Index(provider: string): nat
      reads this
    {
      if provider in rotationIndex then rotationIndex[provider] else 0
    }

    /** A client calling at the given times, with the available profiles unchanged, is
        served in rotation. */
    method Calls(provider: string, times: seq<real>,
                 ghost available: seq<AuthProfile>) returns (returned: seq<AuthProfile>)
      requires available != []
      requires forall i :: 0 <= i < |times| ==>
        Available(Listed(credentials, provider), cooldowns.State(), times[i]) == available
      modifies this`rotationIndex
      ensures returned == Rotation(available, old(Index(provider)), |times|)
    {
      hide Wrap, Available, Rotation;
      returned := [];
      ghost var start := Index(provider);
      for i := 0 to |times|
        invariant Rotation(available, start, |times|) == returned + Rotation(available, Index(provider), |times| - i)
      {
        RotationWrap(available, Index(provider), |times| - i);
        ghost var before := returned;
        var next := NextAvailableProfile(provider, times[i]);
        returned := returned + [next.value];
        ghost var rest := Rotation(available, Index(provider), |times| - i - 1);
        assert before + ([next.value] + rest) == returned + rest;
      }
      assert Rotation(available, Index(provider), 0) == [];
    }

    method ReportSuccess(profileId: string)
      modifies cooldowns
      ensures cooldowns.State() == Cooldowns(old(cooldowns.failures) - {profileId}, old(cooldowns.until) - {profileId})
    {
      cooldowns.Clear(profileId);
    }

    method ReportFailure(profileId: string, billing: bool, now: real)
      modifies cooldowns
      ensures cooldowns.State() == Fail(old(cooldowns.State()), profileId, billing, now)
    {
      cooldowns.RecordFailure(profileId, billing, now);
    }
  }
}
