/** The process-local authorization cache of the token store and the two operations
    that go through it, as functions of the table and the cache state: the read and
    write checks (`token_read`, `token_write`) and the activity update
    (`token_last_activity_at`). */
module TokenCache {
  import opened Wrappers
  import opened TokenModel
  import opened TokenQueries

  /** The capability a hot-path check asks for. */
  datatype Capability = Read | Write

  /** `token_cache` and `token_cache_check`: the entries and the time after which
      the whole cache is dropped. */
  datatype CacheState = CacheState(entries: map<string, CacheEntry>, check: int)

  /** Every entry sits under its own token string. */
  ghost predicate CacheKeyed(m: map<string, CacheEntry>)
  {
    forall k :: k in m ==> m[k].token == k
  }

  /** `entry['read'] is True` (or `'write'`). */
  predicate EntryAllows(e: CacheEntry, cap: Capability)
  {
    match cap
    case Read => e.read
    case Write => e.write
  }

  predicate RowAllows(r: TokenRec, cap: Capability)
  {
    match cap
    case Read => r.read
    case Write => r.write
  }

  function FlagCond(cap: Capability): Cond
  {
    match cap
    case Read => ReadIsTrue
    case Write => WriteIsTrue
  }

  /** The filter chain of a cache miss: token, capability flag, the revocation
      filter as the source evaluates it, and expiry. */
  function CapConds(t: string, cap: Capability, now: int): seq<Cond>
  {
    [TokenIs(t), FlagCond(cap), RevokedFilter, UnexpiredAt(now)]
  }

  /** What a row must satisfy to pass a cache miss, stated without the chain:
      `revoked` plays no part. */
  predicate Qualifies(r: TokenRec, t: string, cap: Capability, now: int)
  {
    r.token == t && RowAllows(r, cap) && (r.expires.None? || r.expires.value > now)
  }

  lemma CapCondsMeaning(t: string, cap: Capability, now: int)
    ensures forall r :: HoldsAll(CapConds(t, cap, now), r) <==> Qualifies(r, t, cap, now)
  {
    var cs := CapConds(t, cap, now);
    assert cs[0] == TokenIs(t) && cs[1] == FlagCond(cap) && cs[2] == Constant(true) && cs[3] == UnexpiredAt(now);
  }

  /** The staleness test at the head of every cache operation: past the cache-wide
      expiry the whole cache is dropped and the expiry set `delay` ahead. */
  function Refresh(s: CacheState, delay: nat, now: int): (s': CacheState)
    ensures now > s.check ==> s' == CacheState(map[], now + delay)
    ensures now <= s.check ==> s' == s
    ensures now <= s'.check
    ensures s'.entries.Keys <= s.entries.Keys
    ensures s.check <= s'.check
  {
    if now > s.check then CacheState(map[], now + delay) else s
  }

  /** The outcome of a check: the record returned, `None` (unauthorized), or the
      `KeyError` that `return self.token_cache[token]` raises when the population
      step was skipped for a token that is not cached. */
  datatype AuthResult = Unauthorized | Authorized(entry: CacheEntry) | KeyError

  datatype Checked = Checked(result: AuthResult, state: CacheState)

  /** `token_read` (cap = Read) and `token_write` (cap = Write). The population
      step is guarded by the literal key `"token"`: a cached record is a non-empty
      dictionary, so `not self.token_cache.get('token')` holds exactly when no
      entry is keyed `"token"`. */
  function Authorize(table: seq<TokenRec>, s: CacheState, delay: nat, t: string, cap: Capability, now: int): (c: Checked)
    ensures now <= c.state.check
  {
    var s1 := Refresh(s, delay, now);
    if t in s1.entries && EntryAllows(s1.entries[t], cap) then
      Checked(Authorized(s1.entries[t]), s1)
    else
      var rows := Where(table, CapConds(t, cap, now));
      if |rows| == 0 then
        Checked(Unauthorized, s1)
      else if "token" in s1.entries then
        Checked(if t in s1.entries then Authorized(s1.entries[t]) else KeyError, s1)
      else
        var e := EntryOf(rows[0], rows[0].groups);
        Checked(Authorized(e), s1.(entries := s1.entries[t := e]))
  }

  /** A cache miss with no `"token"` entry answers from the table: the token is
      authorized iff some row qualifies, and no `KeyError` can arise. */
  lemma AuthorizeMiss(table: seq<TokenRec>, s: CacheState, delay: nat, t: string, cap: Capability, now: int)
    requires !(t in Refresh(s, delay, now).entries && EntryAllows(Refresh(s, delay, now).entries[t], cap))
    requires "token" !in Refresh(s, delay, now).entries
    ensures Authorize(table, s, delay, t, cap, now).result.Authorized?
            <==> exists i :: 0 <= i < |table| && Qualifies(table[i], t, cap, now)
    ensures !Authorize(table, s, delay, t, cap, now).result.KeyError?
  {
    var cs := CapConds(t, cap, now);
    CapCondsMeaning(t, cap, now);
    if |Where(table, cs)| > 0 {
      WhereFirst(table, cs);
    } else {
      WhereNoneHoldConverse(table, cs);
    }
  }

  /** A miss that no row qualifies for is answered `None` and adds no entry. */
  lemma AuthorizeMissRefused(table: seq<TokenRec>, s: CacheState, delay: nat, t: string, cap: Capability, now: int)
    requires !(t in Refresh(s, delay, now).entries && EntryAllows(Refresh(s, delay, now).entries[t], cap))
    requires forall i :: 0 <= i < |table| ==> !Qualifies(table[i], t, cap, now)
    ensures Authorize(table, s, delay, t, cap, now) == Checked(Unauthorized, Refresh(s, delay, now))
  {
    CapCondsMeaning(t, cap, now);
    WhereNoneHold(table, CapConds(t, cap, now));
  }

  /** A miss with no `"token"` entry caches the first qualifying row `i`, with its
      group names, under the token and returns it. */
  lemma AuthorizeMissCaches(table: seq<TokenRec>, s: CacheState, delay: nat, t: string, cap: Capability, now: int, i: nat)
    requires !(t in Refresh(s, delay, now).entries && EntryAllows(Refresh(s, delay, now).entries[t], cap))
    requires "token" !in Refresh(s, delay, now).entries
    requires i < |table| && Qualifies(table[i], t, cap, now)
    requires forall j :: 0 <= j < i ==> !Qualifies(table[j], t, cap, now)
    ensures Authorize(table, s, delay, t, cap, now)
            == Checked(Authorized(EntryOf(table[i], table[i].groups)),
                       Refresh(s, delay, now).(entries := Refresh(s, delay, now).entries[t := EntryOf(table[i], table[i].groups)]))
  {
    var cs := CapConds(t, cap, now);
    CapCondsMeaning(t, cap, now);
    var rows := Where(table, cs);
    assert table[i] in rows;
    WhereFirst(table, cs);
    var f :| 0 <= f < |table| && table[f] == rows[0] && HoldsAll(cs, table[f])
             && forall j :: 0 <= j < f ==> !HoldsAll(cs, table[j]);
    assert f == i;
  }

  /** A fresh cache entry whose flag is set is returned without looking at the
      table: it outlives a `tokens_delete` of its token until the next flush. */
  lemma StaleEntryOutlivesDelete(table: seq<TokenRec>, s: CacheState, delay: nat, t: string, cap: Capability, now: int)
    requires t != ""
    requires now <= s.check && t in s.entries && EntryAllows(s.entries[t], cap)
    ensures TokensSearch(Remaining(table, Criteria(Some(t), None)), Criteria(Some(t), None)) == []
    ensures Authorize(Remaining(table, Criteria(Some(t), None)), s, delay, t, cap, now)
            == Checked(Authorized(s.entries[t]), s)
  {
    SearchAfterDelete(table, Criteria(Some(t), None));
  }

  /** Once the cache is past its expiry, a token with no row is refused: the staleness
      of a deleted token ends at the first check after the cache-wide expiry. */
  lemma FlushRefusesDeleted(table: seq<TokenRec>, s: CacheState, delay: nat, t: string, cap: Capability, now: int)
    requires t != ""
    requires now > s.check
    ensures Authorize(Remaining(table, Criteria(Some(t), None)), s, delay, t, cap, now)
            == Checked(Unauthorized, CacheState(map[], now + delay))
  {
    var rest := Remaining(table, Criteria(Some(t), None));
    CapCondsMeaning(t, cap, now);
    WhereNoneHold(rest, CapConds(t, cap, now));
  }

  /** A revoked token is authorized like any other: the revocation filter keeps
      every row, so past the cache expiry the first qualifying row, revoked or not,
      is the only entry of the flushed cache. */
  lemma RevokedTokenAuthorized(table: seq<TokenRec>, s: CacheState, delay: nat, cap: Capability, now: int, i: nat)
    requires i < |table| && table[i].revoked
    requires Qualifies(table[i], table[i].token, cap, now)
    requires forall j :: 0 <= j < i ==> !Qualifies(table[j], table[i].token, cap, now)
    requires now > s.check
    ensures Authorize(table, s, delay, table[i].token, cap, now)
            == Checked(Authorized(EntryOf(table[i], table[i].groups)),
                       CacheState(map[table[i].token := EntryOf(table[i], table[i].groups)], now + delay))
  {
    AuthorizeMissCaches(table, s, delay, table[i].token, cap, now, i);
  }

  /** A cached entry whose flag is set answers the check on its own: it is returned
      and the (refreshed) cache is left as it is, whatever the table holds. */
  lemma CacheHit(table: seq<TokenRec>, s: CacheState, delay: nat, t: string, cap: Capability, now: int)
    requires t in Refresh(s, delay, now).entries && EntryAllows(Refresh(s, delay, now).entries[t], cap)
    ensures Authorize(table, s, delay, t, cap, now)
            == Checked(Authorized(Refresh(s, delay, now).entries[t]), Refresh(s, delay, now))
  {
  }

  /** A check keeps every entry under its own token string, and what it returns is
      the entry of the token asked about. The flag of that entry is set unless an
      entry keyed `"token"` is cached: then the literal-key test skips the update and
      the stale, unflagged entry of the token is returned. */
  lemma AuthorizeKeyed(table: seq<TokenRec>, s: CacheState, delay: nat, t: string, cap: Capability, now: int)
    requires CacheKeyed(s.entries)
    ensures CacheKeyed(Authorize(table, s, delay, t, cap, now).state.entries)
    ensures Authorize(table, s, delay, t, cap, now).result.Authorized? ==>
              Authorize(table, s, delay, t, cap, now).result.entry.token == t
              && (EntryAllows(Authorize(table, s, delay, t, cap, now).result.entry, cap)
                  || "token" in Authorize(table, s, delay, t, cap, now).state.entries)
  {
    var s1 := Refresh(s, delay, now);
    var cs := CapConds(t, cap, now);
    CapCondsMeaning(t, cap, now);
    var rows := Where(table, cs);
    if |rows| > 0 {
      assert rows[0] in rows;
    }
  }

  /** The literal-key test in action: with an entry keyed `"token"` cached, a
      qualifying token that is not cached raises `KeyError` instead of being cached. */
  lemma LiteralKeyRaises(table: seq<TokenRec>, s: CacheState, delay: nat, t: string, cap: Capability, now: int, i: nat)
    requires now <= s.check && "token" in s.entries && t !in s.entries
    requires i < |table| && Qualifies(table[i], t, cap, now)
    ensures Authorize(table, s, delay, t, cap, now) == Checked(KeyError, s)
  {
    CapCondsMeaning(t, cap, now);
    assert table[i] in Where(table, CapConds(t, cap, now));
  }

  /** The other face of the literal-key test: with an entry keyed `"token"` cached,
      a token cached without the flag is answered with that unflagged entry, even
      when the table now grants the flag. */
  lemma LiteralKeyReturnsUnflagged(table: seq<TokenRec>, s: CacheState, delay: nat, t: string, cap: Capability, now: int, i: nat)
    requires now <= s.check && "token" in s.entries && t in s.entries && !EntryAllows(s.entries[t], cap)
    requires i < |table| && Qualifies(table[i], t, cap, now)
    ensures Authorize(table, s, delay, t, cap, now) == Checked(Authorized(s.entries[t]), s)
    ensures !EntryAllows(Authorize(table, s, delay, t, cap, now).result.entry, cap)
  {
    CapCondsMeaning(t, cap, now);
    assert table[i] in Where(table, CapConds(t, cap, now));
  }

  /** `query(Token).filter_by(token=t).update({last_activity_at: v})`: every row
      with token `t` gets `v`; no other row and no other column changes. */
  function SetLastActivity(rows: seq<TokenRec>, t: string, v: int): (r: seq<TokenRec>)
    ensures |r| == |rows|
    ensures forall i :: 0 <= i < |rows| ==>
              r[i] == rows[i].(lastActivityAt := r[i].lastActivityAt)
              && (rows[i].token == t ==> r[i].lastActivityAt == Some(v))
              && (rows[i].token != t ==> r[i] == rows[i])
    decreases |rows|
  {
    if rows == [] then []
    else
      [if rows[0].token == t then rows[0].(lastActivityAt := Some(v)) else rows[0]]
      + SetLastActivity(rows[1..], t, v)
  }

  /** The number of rows an update by token affects. */
  function RowsWithToken(rows: seq<TokenRec>, t: string): (n: nat)
    ensures n > 0 <==> exists i :: 0 <= i < |rows| && rows[i].token == t
  {
    HoldsAllSingleAll(t);
    var w := Where(rows, [TokenIs(t)]);
    assert |w| > 0 ==> w[0] in w;
    assert forall i :: 0 <= i < |rows| ==> rows[i] in rows;
    |w|
  }

  lemma HoldsAllSingleAll(t: string)
    ensures forall r :: HoldsAll([TokenIs(t)], r) <==> r.token == t
  {
    forall r ensures HoldsAll([TokenIs(t)], r) <==> r.token == t {
      HoldsAllSingle(TokenIs(t), r);
    }
  }

  datatype Touched = Touched(result: Option<int>, table: seq<TokenRec>, state: CacheState)

  /** `token_last_activity_at(t, ts)`. `ts` is the timestamp argument, `None` when
      the caller gives none; `arrow.get` then yields the current time, so the update
      always runs with a timestamp `v`. Flush a stale cache; a token that is not
      cached changes nothing; a cached truthy `last_activity_at` is returned (a cached
      NULL one would make the call return `None`, but an entry filled from the table
      never holds one: `EntryOf` turns NULL into a missing key); only a missing key
      updates the rows with
      token `t` and, when some row was affected, the cached entry. */
  function Touch(table: seq<TokenRec>, s: CacheState, delay: nat, t: string, ts: Option<int>, now: int): (c: Touched)
    ensures now <= c.state.check
    ensures c.state.entries.Keys <= s.entries.Keys
  {
    var v := if ts.Some? then ts.value else now;
    var s1 := Refresh(s, delay, now);
    if t !in s1.entries then Touched(None, table, s1)
    else
      match s1.entries[t].lastActivityAt
      case Present(at) => Touched(at, table, s1)
      case Absent =>
        var n := RowsWithToken(table, t);
        var table' := SetLastActivity(table, t, v);
        if n > 0 then
          var e := s1.entries[t].(lastActivityAt := Present(Some(v)));
          Touched(Some(v), table', s1.(entries := s1.entries[t := e]))
        else
          Touched(None, table', s1)
  }

  /** An update that matches no row leaves the table as it was. */
  lemma SetLastActivityNoMatch(rows: seq<TokenRec>, t: string, v: int)
    requires forall i :: 0 <= i < |rows| ==> rows[i].token != t
    ensures SetLastActivity(rows, t, v) == rows
  {
  }

  /** The table changes only through a cached entry that lacks the key, and then
      exactly by the update; the timestamp is returned iff some row had the token. */
  lemma TouchWritesOnlyMissingKey(table: seq<TokenRec>, s: CacheState, delay: nat, t: string, v: int, now: int)
    ensures var c := Touch(table, s, delay, t, Some(v), now);
            var s1 := Refresh(s, delay, now);
            && (c.table != table ==> t in s1.entries && s1.entries[t].lastActivityAt.Absent?)
            && (t in s1.entries && s1.entries[t].lastActivityAt.Absent? ==>
                  c.table == SetLastActivity(table, t, v)
                  && (c.result == Some(v) <==> exists i :: 0 <= i < |table| && table[i].token == t))
  {
    var s1 := Refresh(s, delay, now);
    if t in s1.entries && s1.entries[t].lastActivityAt.Absent? && RowsWithToken(table, t) == 0 {
      SetLastActivityNoMatch(table, t, v);
    }
  }

  /** What the activity update returns and leaves in the cache: an uncached token
      gives `None`; a cached `last_activity_at` is returned with nothing changed; a
      missing key that the update finds rows for is filled in with `v` in that entry
      only, and `v` is returned; one that finds no row gives `None`. */
  lemma TouchOutcomes(table: seq<TokenRec>, s: CacheState, delay: nat, t: string, v: int, now: int)
    ensures var c := Touch(table, s, delay, t, Some(v), now);
            var s1 := Refresh(s, delay, now);
            && (t !in s1.entries ==> c == Touched(None, table, s1))
            && (t in s1.entries && s1.entries[t].lastActivityAt.Present? ==>
                  c == Touched(s1.entries[t].lastActivityAt.value, table, s1))
            && (t in s1.entries && s1.entries[t].lastActivityAt.Absent? ==>
                  if exists i :: 0 <= i < |table| && table[i].token == t then
                    c.result == Some(v)
                    && c.state == s1.(entries := s1.entries[t := s1.entries[t].(lastActivityAt := Present(Some(v)))])
                  else
                    c == Touched(None, table, s1))
  {
    var s1 := Refresh(s, delay, now);
    if t in s1.entries && s1.entries[t].lastActivityAt.Absent? && RowsWithToken(table, t) == 0 {
      SetLastActivityNoMatch(table, t, v);
    }
  }

  /** The activity update keeps the table's token strings, groups and uniqueness,
      and every cache entry under its own token. */
  lemma TouchKeepsInvariants(table: seq<TokenRec>, s: CacheState, delay: nat, t: string, ts: Option<int>, now: int)
    requires UniqueTokens(table) && CacheKeyed(s.entries)
    ensures var c := Touch(table, s, delay, t, ts, now);
            && |c.table| == |table|
            && (forall i :: 0 <= i < |table| ==> c.table[i].token == table[i].token && c.table[i].groups == table[i].groups)
            && UniqueTokens(c.table) && CacheKeyed(c.state.entries)
  {
  }
}
