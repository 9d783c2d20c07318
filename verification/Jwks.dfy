/** The rotating signing-key cache: refresh with overlap, and verification. */
module Jwks {
  import opened Options

  type Kid = string

  datatype Key = Key(modulus: nat, exponent: nat)

  /** One JWK of a fetched document; `closed` stands for its field and text checks. */
  datatype Item = Item(closed: bool, kid: Kid, key: Key)

  datatype Fetch = Unavailable | Document(items: seq<Item>)

  datatype Cached = Cached(key: Key, retiredAt: Option<int>)

  const MAX_KEYS := 8

  datatype Config = Config(issuer: string, clientId: string, skew: nat, cacheSeconds: nat, overlapSeconds: nat)

  /** The ranges that configuration accepts. */
  predicate Configured(c: Config) {
    c.skew <= 120 && 30 <= c.cacheSeconds <= 3600 && 60 <= c.overlapSeconds <= 86400
  }

  function BitLength(n: nat): nat {
    if n == 0 then 0 else BitLength(n / 2) + 1
  }

  predicate Strong(k: Key) {
    BitLength(k.modulus) >= 2048 && (k.exponent == 3 || k.exponent == 65537)
  }

  // ----- parsing a document -----

  /** The first n items are closed, strong and of distinct key ids. */
  predicate Good(items: seq<Item>, n: nat)
    requires n <= |items|
  {
    && (forall i :: 0 <= i < n ==> items[i].closed && Strong(items[i].key))
    && (forall i, j :: 0 <= i < j < n ==> items[i].kid != items[j].kid)
  }

  predicate Acceptable(items: seq<Item>) {
    1 <= |items| <= MAX_KEYS && Good(items, |items|)
  }

  function KeysOf(items: seq<Item>): (m: map<Kid, Key>)
    ensures |m| <= |items|
  {
    if items == [] then map[]
    else KeysOf(items[..|items| - 1])[items[|items| - 1].kid := items[|items| - 1].key]
  }

  lemma {:induction false} KeysOfHas(items: seq<Item>, kid: Kid)
    ensures kid in KeysOf(items) <==> exists i :: 0 <= i < |items| && items[i].kid == kid
    decreases |items|
  {
    if items != [] {
      var init := items[..|items| - 1];
      KeysOfHas(init, kid);
      if kid in KeysOf(init) {
        var i :| 0 <= i < |init| && init[i].kid == kid;
        assert items[i].kid == kid;
      }
      if exists i :: 0 <= i < |items| && items[i].kid == kid {
        var i :| 0 <= i < |items| && items[i].kid == kid;
        assert i < |init| ==> init[i].kid == kid;
      }
    }
  }

  lemma KeysOfNone()
    ensures KeysOf([]) == map[]
  {
  }

  lemma KeysOfNext(items: seq<Item>, n: nat)
    requires n < |items|
    ensures KeysOf(items[..n + 1]) == KeysOf(items[..n])[items[n].kid := items[n].key]
  {
    assert items[..n + 1][..n] == items[..n];
  }

  lemma GoodNext(items: seq<Item>, n: nat)
    requires n < |items|
    ensures Good(items, n + 1) <==>
            Good(items, n) && items[n].closed && Strong(items[n].key) && items[n].kid !in KeysOf(items[..n])
    ensures Good(items, |items|) ==> Good(items, n + 1)
  {
    hide Strong, KeysOf;
    KeysOfHas(items[..n], items[n].kid);
    if Good(items, n) && items[n].kid !in KeysOf(items[..n]) {
      forall i | 0 <= i < n ensures items[i].kid != items[n].kid {
        assert items[..n][i].kid == items[i].kid;
      }
    }
    if items[n].kid in KeysOf(items[..n]) {
      var i :| 0 <= i < n && items[..n][i].kid == items[n].kid;
      assert items[i].kid == items[n].kid;
    }
  }

  /** Refuses a wrong count, a malformed or weak key, or a repeated key id. */
  method ParseJwks(fetch: Fetch) returns (r: Option<map<Kid, Key>>)
    ensures r == ParseResult(fetch)
  {
    hide Strong, KeysOf, Good;
    if fetch.Unavailable? {
      return None;
    }
    var items := fetch.items;
    if !(1 <= |items| <= MAX_KEYS) {
      return None;
    }
    var parsed: map<Kid, Key> := map[];
    KeysOfNone();
    GoodNone(items);
    for n := 0 to |items|
      invariant parsed == KeysOf(items[..n]) && Good(items, n)
    {
      var item := items[n];
      GoodNext(items, n);
      if !item.closed || item.kid in parsed || !Strong(item.key) {
        return None;
      }
      KeysOfNext(items, n);
      parsed := parsed[item.kid := item.key];
    }
    assert items[..|items|] == items;
    r := Some(parsed);
  }

  lemma GoodNone(items: seq<Item>)
    ensures Good(items, 0)
  {
  }

  function ParseResult(fetch: Fetch): Option<map<Kid, Key>> {
    if fetch.Document? && Acceptable(fetch.items) then Some(KeysOf(fetch.items)) else None
  }

  // ----- refreshing -----

  datatype State = State(keys: map<Kid, Cached>, refreshedAt: int)

  const EMPTY := State(map[], 0)

  function RetiredAt(c: Cached, now: int): int {
    if c.retiredAt.None? then now else c.retiredAt.value
  }

  /** Fresh keys, plus old ones whose retirement is still within the overlap. */
  function Combine(keys: map<Kid, Cached>, published: map<Kid, Key>, now: int, overlap: nat): map<Kid, Cached> {
    (map kid | kid in keys && kid !in published && now - RetiredAt(keys[kid], now) <= overlap ::
       Cached(keys[kid].key, Some(RetiredAt(keys[kid], now))))
    + (map kid | kid in published :: Cached(published[kid], None))
  }

  function Refreshed(s: State, now: int, fetch: Fetch, overlap: nat): Option<State> {
    var published := ParseResult(fetch);
    if published.None? then None
    else
      var combined := Combine(s.keys, published.value, now, overlap);
      if |combined| > 2 * MAX_KEYS then None else Some(State(combined, now))
  }

  // ----- the whole fetch history -----

  /** A successful refresh: when, and which keys the provider published. */
  datatype Fetched = Fetched(at: int, keys: map<Kid, Key>)

  type History = seq<Fetched>

  /** Index of the last fetch that contained kid, or -1. */
  function LastSeen(h: History, kid: Kid): int
    ensures -1 <= LastSeen(h, kid) < |h|
    ensures LastSeen(h, kid) >= 0 ==> kid in h[LastSeen(h, kid)].keys
    ensures forall i :: LastSeen(h, kid) < i < |h| ==> kid !in h[i].keys
  {
    if h == [] then -1
    else if kid in h[|h| - 1].keys then |h| - 1
    else LastSeen(h[..|h| - 1], kid)
  }

  /** Time of the first refresh that missed kid after its last appearance. */
  function MissedAt(h: History, kid: Kid): int
    requires 0 <= LastSeen(h, kid) < |h| - 1
  {
    h[LastSeen(h, kid) + 1].at
  }

  /** kid was published once and, ever since it was first missed, every refresh came
      within the overlap. */
  ghost predicate Live(h: History, kid: Kid, overlap: nat) {
    var j := LastSeen(h, kid);
    j >= 0 && InTime(h, j, overlap)
  }

  function Expected(h: History, kid: Kid): Cached
    requires LastSeen(h, kid) >= 0
  {
    var j := LastSeen(h, kid);
    Cached(h[j].keys[kid], if j == |h| - 1 then None else Some(MissedAt(h, kid)))
  }

  /** One key id of the cache is what the history says. */
  ghost predicate Fits(keys: map<Kid, Cached>, h: History, kid: Kid, overlap: nat) {
    && (kid in keys <==> Live(h, kid, overlap))
    && (kid in keys ==> keys[kid] == Expected(h, kid))
  }

  /** The cache is exactly what the history says. */
  ghost predicate Agrees(keys: map<Kid, Cached>, h: History, overlap: nat) {
    forall kid :: Fits(keys, h, kid, overlap)
  }

  lemma RefreshAgrees(keys: map<Kid, Cached>, h: History, overlap: nat, f: Fetched)
    requires Agrees(keys, h, overlap)
    ensures Agrees(Combine(keys, f.keys, f.at, overlap), h + [f], overlap)
  {
    hide Combine, Fits;
    forall kid ensures Fits(Combine(keys, f.keys, f.at, overlap), h + [f], kid, overlap) {
      KeyFits(keys, h, overlap, f, kid);
    }
  }

  lemma KeyFits(keys: map<Kid, Cached>, h: History, overlap: nat, f: Fetched, kid: Kid)
    requires Fits(keys, h, kid, overlap)
    ensures Fits(Combine(keys, f.keys, f.at, overlap), h + [f], kid, overlap)
  {
    assert (h + [f])[..|h|] == h;
    if kid !in f.keys && LastSeen(h, kid) >= 0 {
      MissedLive(h, f, kid, overlap);
    }
  }

  /** One refresh that misses kid keeps it live iff it still comes in time. */
  lemma MissedLive(h: History, f: Fetched, kid: Kid, overlap: nat)
    requires kid !in f.keys && LastSeen(h, kid) >= 0
    ensures LastSeen(h + [f], kid) == LastSeen(h, kid)
    ensures Live(h + [f], kid, overlap) <==>
            Live(h, kid, overlap) && f.at - (if LastSeen(h, kid) == |h| - 1 then f.at else MissedAt(h, kid)) <= overlap
  {
    var g, j := h + [f], LastSeen(h, kid);
    assert g[..|h|] == h;
    assert LastSeen(g, kid) == j;
    hide LastSeen;
    Within(h, f, j, overlap);
  }

  /** From position j on, every fetch came within the overlap of the one after j. */
  ghost predicate InTime(h: History, j: nat, overlap: nat) {
    forall i :: j < i < |h| ==> h[i].at - h[j + 1].at <= overlap
  }

  lemma Within(h: History, f: Fetched, j: nat, overlap: nat)
    requires j < |h|
    ensures InTime(h + [f], j, overlap) <==>
            InTime(h, j, overlap) && f.at - (if j == |h| - 1 then f.at else h[j + 1].at) <= overlap
  {
    var g := h + [f];
    if InTime(g, j, overlap) {
      forall i | j < i < |h| ensures h[i].at - h[j + 1].at <= overlap {
        assert g[i].at - g[j + 1].at <= overlap;
      }
      assert g[|h|].at - g[j + 1].at <= overlap;
    }
  }

  /** Refresh attempts, refused ones included. */
  datatype Attempt = Attempt(now: int, fetch: Fetch)

  function RunFrom(s: State, run: seq<Attempt>, overlap: nat): State
    decreases |run|
  {
    if run == [] then s
    else
      var before := RunFrom(s, run[..|run| - 1], overlap);
      var last := run[|run| - 1];
      var r := Refreshed(before, last.now, last.fetch, overlap);
      if r.None? then before else r.value
  }

  /** The successful fetches of a run that starts from the empty cache. */
  function HistoryOf(run: seq<Attempt>, overlap: nat): History
    decreases |run|
  {
    if run == [] then []
    else
      var init, last := run[..|run| - 1], run[|run| - 1];
      var h := HistoryOf(init, overlap);
      if Refreshed(RunFrom(EMPTY, init, overlap), last.now, last.fetch, overlap).None? then h
      else h + [Fetched(last.now, ParseResult(last.fetch).value)]
  }

  /** After any run of attempts the cache holds exactly the live keys of the
      successful fetches, each with its last published key and the time of the first
      refresh that missed it; it never outgrows twice the key limit. */
  lemma {:induction false} CacheMatchesHistory(run: seq<Attempt>, overlap: nat)
    ensures var s, h := RunFrom(EMPTY, run, overlap), HistoryOf(run, overlap);
      && Agrees(s.keys, h, overlap)
      && |s.keys| <= 2 * MAX_KEYS
      && s.refreshedAt == (if h == [] then 0 else h[|h| - 1].at)
    decreases |run|
  {
    if run != [] {
      var init, last := run[..|run| - 1], run[|run| - 1];
      CacheMatchesHistory(init, overlap);
      var before := RunFrom(EMPTY, init, overlap);
      if Refreshed(before, last.now, last.fetch, overlap).Some? {
        RefreshAgrees(before.keys, HistoryOf(init, overlap), overlap, Fetched(last.now, ParseResult(last.fetch).value));
      }
    }
  }

  ghost predicate ClockForward(h: History) {
    forall i, j :: 0 <= i <= j < |h| ==> h[i].at <= h[j].at
  }

  /** With a clock that never steps back only the latest refresh matters. */
  lemma LiveWithForwardClock(h: History, kid: Kid, overlap: nat)
    requires ClockForward(h)
    ensures Live(h, kid, overlap) <==>
            || (h != [] && LastSeen(h, kid) == |h| - 1)
            || (0 <= LastSeen(h, kid) < |h| - 1 && h[|h| - 1].at - MissedAt(h, kid) <= overlap)
  {
    var j := LastSeen(h, kid);
    if 0 <= j < |h| - 1 && h[|h| - 1].at - h[j + 1].at <= overlap {
      forall i | j < i < |h| ensures h[i].at - h[j + 1].at <= overlap {
        assert h[i].at <= h[|h| - 1].at;
      }
    }
  }

  // ----- verifying a token -----

  datatype Audience = One(name: string) | Many(names: seq<string>)

  datatype Claims = Claims(iss: string, sub: string, aud: Audience, azp: Option<string>, iat: int, exp: int, nonce: string)

  /** A token after the structural checks; `signedBy` is signature verification. */
  datatype Token = Malformed | Token(kid: Kid, claims: Claims, signedBy: Key -> bool)

  datatype Identity = Identity(issuer: string, subject: string, issuedAt: int, expiresAt: int)

  /** Printable ASCII, no outer spaces, not empty, bounded. */
  predicate ClosedText(t: string, maximum: nat) {
    && t != [] && |t| <= maximum
    && t[0] != ' ' && t[|t| - 1] != ' '
    && forall i :: 0 <= i < |t| ==> 32 <= t[i] as int < 127
  }

  function Audiences(a: Audience): Option<seq<string>> {
    match a
    case One(n) => Some([n])
    case Many(ns) =>
      if ns != [] && (forall i :: 0 <= i < |ns| ==> ClosedText(ns[i], 200))
         && (forall i, j :: 0 <= i < j < |ns| ==> ns[i] != ns[j])
      then Some(ns) else None
  }

  function ValidateClaims(c: Claims, config: Config, nonce: string, now: int): Option<Identity> {
    var names := Audiences(c.aud);
    if !ClosedText(nonce, 256) || c.iss != config.issuer || !ClosedText(c.sub, 512) then None
    else if names.None? || config.clientId !in names.value then None
    else if |names.value| > 1 && c.azp != Some(config.clientId) then None
    else if c.exp <= c.iat || c.iat > now + config.skew || c.exp <= now - config.skew then None
    else if c.nonce != nonce then None
    else Some(Identity(config.issuer, c.sub, c.iat, c.exp))
  }

  predicate NeedsRefresh(s: State, kid: Kid, config: Config, now: int) {
    kid !in s.keys || now - s.refreshedAt >= config.cacheSeconds
  }

  predicate StillUsable(s: State, kid: Kid, config: Config, now: int) {
    && kid in s.keys
    && (s.keys[kid].retiredAt.None? || now - s.keys[kid].retiredAt.value <= config.overlapSeconds)
  }

  datatype Outcome = Refused | Accepted(identity: Identity)

  /** The two calls that reach the cache; a verification fetches only if it must. */
  datatype Call = RefreshCall(now: int, fetch: Fetch)
                | VerifyCall(token: Token, nonce: string, now: int, fetch: Fetch)

  predicate Fetches(s: State, call: Call, config: Config) {
    call.VerifyCall? ==> call.token.Token? && NeedsRefresh(s, call.token.kid, config, call.now)
  }

  function AfterCall(s: State, call: Call, config: Config): State {
    var refreshed := Refreshed(s, call.now, call.fetch, config.overlapSeconds);
    if Fetches(s, call, config) && refreshed.Some? then refreshed.value else s
  }

  /** The call is a verification and the cache it leaves vouches for its token. */
  predicate Accepts(s: State, call: Call, config: Config) {
    && call.VerifyCall? && call.token.Token?
    && (Fetches(s, call, config) ==> Refreshed(s, call.now, call.fetch, config.overlapSeconds).Some?)
    && var after, kid := AfterCall(s, call, config), call.token.kid;
    && StillUsable(after, kid, config, call.now)
    && call.token.signedBy(after.keys[kid].key)
    && ValidateClaims(call.token.claims, config, call.nonce, call.now).Some?
  }

  /** The loop over the cached keys, then over the published ones. */
  method CombineLoop(keys: map<Kid, Cached>, published: map<Kid, Key>, now: int, overlap: nat)
    returns (combined: map<Kid, Cached>)
    ensures combined == Combine(keys, published, now, overlap)
  {
    combined := map[];
    var left := keys.Keys;
    while left != {}
      invariant left <= keys.Keys
      invariant forall kid :: kid in combined <==>
                  kid in keys && kid !in left && kid !in published && now - RetiredAt(keys[kid], now) <= overlap
      invariant forall kid :: kid in combined ==> combined[kid] == Cached(keys[kid].key, Some(RetiredAt(keys[kid], now)))
      decreases left
    {
      var kid :| kid in left;
      left := left - {kid};
      if kid !in published {
        var cached := keys[kid];
        var retiredAt := if cached.retiredAt.None? then now else cached.retiredAt.value;
        if now - retiredAt <= overlap {
          combined := combined[kid := Cached(cached.key, Some(retiredAt))];
        }
      }
    }
    combined := combined + map kid | kid in published :: Cached(published[kid], None);
  }

  class JWKSVerifier {
    const config: Config
    var keys: map<Kid, Cached>
    var refreshedAt: int

    function View(): State
      reads this
    {
      State(keys, refreshedAt)
    }

    constructor (config: Config)
      ensures View() == EMPTY && this.config == config
    {
      this.config := config;
      keys, refreshedAt := map[], 0;
    }

    /** A refused refresh leaves the cache as it was. */
    method Refresh(now: int, fetch: Fetch) returns (ok: bool)
      modifies this
      ensures ok <==> Refreshed(old(View()), now, fetch, config.overlapSeconds).Some?
      ensures View() == if ok then Refreshed(old(View()), now, fetch, config.overlapSeconds).value else old(View())
      ensures View() == AfterCall(old(View()), RefreshCall(now, fetch), config)
    {
      var published := ParseJwks(fetch);
      if published.None? {
        return false;
      }
      var combined := CombineLoop(keys, published.value, now, config.overlapSeconds);
      if |combined| > MAX_KEYS * 2 {
        return false;
      }
      keys, refreshedAt := combined, now;
      ok := true;
    }

    /** At most one refresh, and only for an unknown key id or a stale cache. */
    method Verify(token: Token, nonce: string, now: int, fetch: Fetch) returns (r: Outcome)
      requires Configured(config)
      modifies this
      ensures View() == AfterCall(old(View()), VerifyCall(token, nonce, now, fetch), config)
      ensures r.Accepted? <==> Accepts(old(View()), VerifyCall(token, nonce, now, fetch), config)
      ensures r.Accepted? ==> now - refreshedAt < config.cacheSeconds
      ensures r.Accepted? ==> ValidateClaims(token.claims, config, nonce, now) == Some(r.identity)
    {
      hide Refreshed, ValidateClaims;
      RefreshedNow(View(), VerifyCall(token, nonce, now, fetch), config);
      if token.Malformed? {
        return Refused;
      }
      var stale := now - refreshedAt >= config.cacheSeconds;
      if token.kid !in keys || stale {
        var ok := Refresh(now, fetch);
        if !ok {
          return Refused;
        }
      }
      if token.kid !in keys {
        return Refused;
      }
      var cached := keys[token.kid];
      if cached.retiredAt.Some? && now - cached.retiredAt.value > config.overlapSeconds {
        return Refused;
      }
      if !token.signedBy(cached.key) {
        return Refused;
      }
      var identity := ValidateClaims(token.claims, config, nonce, now);
      r := if identity.None? then Refused else Accepted(identity.value);
    }
  }

  /** What acceptance means against the fetch history: the key is the one the provider
      last published under that id, and if it has been withdrawn since, the first
      refresh that missed it is no further back than the overlap. */
  lemma AcceptedKeyIsRecent(run: seq<Attempt>, kid: Kid, config: Config, now: int)
    requires StillUsable(RunFrom(EMPTY, run, config.overlapSeconds), kid, config, now)
    ensures var h, s := HistoryOf(run, config.overlapSeconds), RunFrom(EMPTY, run, config.overlapSeconds);
      var j := LastSeen(h, kid);
      && j >= 0
      && s.keys[kid].key == h[j].keys[kid]
      && (j == |h| - 1 || now - h[j + 1].at <= config.overlapSeconds)
  {
    hide RunFrom, HistoryOf;
    CacheMatchesHistory(run, config.overlapSeconds);
    var s := RunFrom(EMPTY, run, config.overlapSeconds);
    assert Fits(s.keys, HistoryOf(run, config.overlapSeconds), kid, config.overlapSeconds);
    assert s.keys[kid] == Expected(HistoryOf(run, config.overlapSeconds), kid);
  }

  // ----- a whole life of the verifier -----

  function AfterCalls(calls: seq<Call>, config: Config): State
    decreases |calls|
  {
    if |calls| == 0 then EMPTY
    else AfterCall(AfterCalls(calls[..|calls| - 1], config), calls[|calls| - 1], config)
  }

  /** The refresh attempts that a run of calls makes. */
  function AttemptsOf(calls: seq<Call>, config: Config): seq<Attempt>
    decreases |calls|
  {
    if |calls| == 0 then []
    else
      var init, last := calls[..|calls| - 1], calls[|calls| - 1];
      AttemptsOf(init, config)
      + if Fetches(AfterCalls(init, config), last, config) then [Attempt(last.now, last.fetch)] else []
  }

  /** What the provider has published to the verifier so far. */
  function Published(calls: seq<Call>, config: Config): History {
    HistoryOf(AttemptsOf(calls, config), config.overlapSeconds)
  }

  lemma RunGrows(s: State, run: seq<Attempt>, last: Attempt, overlap: nat)
    ensures RunFrom(s, run + [last], overlap) ==
            var before := RunFrom(s, run, overlap);
            var r := Refreshed(before, last.now, last.fetch, overlap);
            if r.None? then before else r.value
  {
    assert (run + [last])[..|run|] == run;
  }

  lemma {:induction false} CallsAreAttempts(calls: seq<Call>, config: Config)
    ensures AfterCalls(calls, config) == RunFrom(EMPTY, AttemptsOf(calls, config), config.overlapSeconds)
    decreases |calls|
  {
    hide Refreshed, Fetches, RunFrom;
    if |calls| == 0 {
      NothingRun(config.overlapSeconds);
    } else {
      var init, last := calls[..|calls| - 1], calls[|calls| - 1];
      CallsAreAttempts(init, config);
      RunGrows(EMPTY, AttemptsOf(init, config), Attempt(last.now, last.fetch), config.overlapSeconds);
      assert AttemptsOf(init, config) + [] == AttemptsOf(init, config);
    }
  }

  lemma NothingRun(overlap: nat)
    ensures RunFrom(EMPTY, [], overlap) == EMPTY
  {
  }

  /** The history after one more call: one fetch longer exactly if the call fetched
      and the refresh went through. */
  lemma HistoryGrows(calls: seq<Call>, last: Call, config: Config)
    ensures var h, s := Published(calls, config), AfterCalls(calls, config);
      && var r := Refreshed(s, last.now, last.fetch, config.overlapSeconds);
      && Published(calls + [last], config) ==
         if Fetches(s, last, config) && r.Some? then h + [Fetched(last.now, ParseResult(last.fetch).value)] else h
  {
    var all, run := calls + [last], AttemptsOf(calls, config);
    assert all[..|all| - 1] == calls;
    assert AttemptsOf(all, config) ==
           run + if Fetches(AfterCalls(calls, config), last, config) then [Attempt(last.now, last.fetch)] else [];
    CallsAreAttempts(calls, config);
    hide Fetches, RunFrom, AttemptsOf, AfterCalls;
    var attempt := Attempt(last.now, last.fetch);
    assert (run + [attempt])[..|run|] == run;
    assert run + [] == run;
  }

  /** The latest successful fetch is recent and knew the key's standing. */
  ghost predicate Vouches(h: History, kid: Kid, key: Key, config: Config, now: int) {
    var j := LastSeen(h, kid);
    && Live(h, kid, config.overlapSeconds)
    && key == h[j].keys[kid]
    && (j == |h| - 1 || now - h[j + 1].at <= config.overlapSeconds)
    && now - h[|h| - 1].at < config.cacheSeconds
  }

  lemma CachedIff(keys: map<Kid, Cached>, h: History, kid: Kid, overlap: nat)
    requires Agrees(keys, h, overlap)
    ensures kid in keys <==> Live(h, kid, overlap)
    ensures kid in keys ==> h != [] && LastSeen(h, kid) >= 0 && keys[kid] == Expected(h, kid)
  {
    hide LastSeen, Expected;
    assert Fits(keys, h, kid, overlap);
  }

  lemma UsableIff(s: State, h: History, kid: Kid, config: Config, now: int)
    requires Agrees(s.keys, h, config.overlapSeconds)
    ensures StillUsable(s, kid, config, now) <==>
            && Live(h, kid, config.overlapSeconds)
            && var j := LastSeen(h, kid); j == |h| - 1 || now - h[j + 1].at <= config.overlapSeconds
    ensures kid in s.keys <==> Live(h, kid, config.overlapSeconds)
    ensures kid in s.keys ==> h != [] && s.keys[kid].key == h[LastSeen(h, kid)].keys[kid]
  {
    CachedIff(s.keys, h, kid, config.overlapSeconds);
    hide Agrees, InTime;
  }

  lemma CallsMatchHistory(calls: seq<Call>, config: Config)
    ensures var s, h := AfterCalls(calls, config), Published(calls, config);
      Agrees(s.keys, h, config.overlapSeconds) && s.refreshedAt == (if h == [] then 0 else h[|h| - 1].at)
  {
    hide RunFrom, HistoryOf, AttemptsOf, AfterCalls;
    CallsAreAttempts(calls, config);
    CacheMatchesHistory(AttemptsOf(calls, config), config.overlapSeconds);
  }

  lemma AfterMore(calls: seq<Call>, call: Call, config: Config)
    ensures AfterCalls(calls + [call], config) == AfterCall(AfterCalls(calls, config), call, config)
  {
    var all := calls + [call];
    assert all[..|all| - 1] == calls;
  }

  /** After any calls, a token is accepted exactly when its signer is a key that the
      provider published, last under that id, to a fetch younger than the cache limit,
      and that was not withdrawn longer than the overlap ago; and its claims pass. */
  lemma AcceptedIff(calls: seq<Call>, call: Call, config: Config)
    requires call.VerifyCall? && call.token.Token? && Configured(config)
    ensures var h := Published(calls + [call], config);
      Accepts(AfterCalls(calls, config), call, config) <==>
      && ValidateClaims(call.token.claims, config, call.nonce, call.now).Some?
      && exists key :: Vouches(h, call.token.kid, key, config, call.now) && call.token.signedBy(key)
  {
    hide AfterCalls, Published, Refreshed, InTime, LastSeen, Expected, ValidateClaims, Agrees;
    var kid, s, h := call.token.kid, AfterCalls(calls, config), Published(calls + [call], config);
    var after := AfterCall(s, call, config);
    AfterMore(calls, call, config);
    CallsMatchHistory(calls + [call], config);
    UsableIff(after, h, kid, config, call.now);
    CallsMatchHistory(calls, config);
    HistoryGrows(calls, call, config);
    RefreshedNow(s, call, config);
    if Accepts(s, call, config) {
      assert Vouches(h, kid, after.keys[kid].key, config, call.now);
    }
  }

  lemma RefreshedNow(s: State, call: Call, config: Config)
    ensures var r := Refreshed(s, call.now, call.fetch, config.overlapSeconds); r.Some? ==> r.value.refreshedAt == call.now
  {
  }

  /** Claims that pass at some moment pass exactly inside their own window, widened by
      the skew; so two acceptances of one token lie less than that window apart. */
  lemma ClaimsWindow(c: Claims, config: Config, nonce: string, passed: int, now: int)
    requires ValidateClaims(c, config, nonce, passed).Some?
    ensures ValidateClaims(c, config, nonce, now).Some? <==> c.iat - config.skew <= now < c.exp + config.skew
  {
  }
}
