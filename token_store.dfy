/** The token store itself (`TokenMixin` over its SQLite session): the `tokens`
    table, the authorization cache and its expiry, and the operations that change
    them in place. Each operation is tied to the specification functions of
    `TokenQueries` and `TokenCache`, whose properties are proved there. */
module Store {
  import opened Wrappers
  import opened TokenModel
  import opened TokenQueries
  import opened TokenCache

  /** The loop that fills a cached record's `groups` list from the token's groups. */
  method CollectGroups(groups: seq<string>) returns (names: seq<string>)
    ensures names == groups
  {
    names := [];
    var i := 0;
    while i < |groups|
      invariant 0 <= i <= |groups|
      invariant names == groups[..i]
    {
      names := names + [groups[i]];
      i := i + 1;
    }
  }

  class TokenStore {
    /** The `tokens` table, each row with its owned groups. */
    var table: seq<TokenRec>
    /** `token_cache`. */
    var cache: map<string, CacheEntry>
    /** `token_cache_check`. */
    var cacheCheck: int
    /** `TOKEN_CACHE_DELAY`. */
    const cacheDelay: nat

    /** Token strings are unique (each is freshly generated), every token owns at
        least one group, and every cache entry sits under its own token string. */
    ghost predicate Valid()
      reads this
    {
      && UniqueTokens(table)
      && (forall x :: x in table ==> |x.groups| >= 1)
      && CacheKeyed(cache)
    }

    function State(): CacheState
      reads this
    {
      CacheState(cache, cacheCheck)
    }

    constructor (delay: nat)
      ensures Valid()
      ensures table == [] && cache == map[] && cacheCheck == 0 && cacheDelay == delay
    {
      table := [];
      cache := map[];
      cacheCheck := 0;
      cacheDelay := delay;
    }

    /** `tokens_create`: adds one token with one group, in one commit. `freshToken`
        stands for `_token_generate()` and `freshId` for the id the database
        assigns. The cache is not touched. */
    method TokensCreate(req: CreateRequest, freshToken: string, freshId: int) returns (r: TokenRec)
      requires Valid()
      requires freshToken != ""
      requires forall x :: x in table ==> x.token != freshToken
      modifies this`table
      ensures Valid()
      ensures table == old(table) + [r]
      ensures r.id == freshId && r.token == freshToken
      ensures r.username == req.username && r.expires == req.expires
      ensures r.read == req.read && r.write == req.write && r.admin == req.admin
      ensures r.acl == StoredAcl(req.acl)
      ensures r.groups == [GroupName(req)]
      ensures !r.revoked && r.lastActivityAt == None
      ensures TokensSearch(table, Criteria(Some(freshToken), None)) == [r]
    {
      r := NewToken(req, freshToken, freshId);
      CreateThenSearchByToken(table, req, freshToken, freshId);
      UniqueTokensSnoc(table, r);
      table := table + [r];
    }

    /** `tokens_delete`: removes every row the request matches, with its groups,
        and returns how many. The cache is not touched. */
    method TokensDelete(c: Criteria) returns (n: nat)
      requires Valid()
      modifies this`table
      ensures Valid()
      ensures table == Remaining(old(table), c)
      ensures n == |TokensSearch(old(table), c)|
      ensures n == |old(table)| - |table|
      ensures n == 0 ==> table == old(table)
    {
      var cs := DeleteConds(c);
      WhereSameConds(table, SearchConds(c), cs);
      DeleteCount(table, c);
      ExceptKeepsUnique(table, cs);
      var rv := Where(table, cs);
      if |rv| > 0 {
        n := |rv|;
        table := Except(table, cs);
      } else {
        n := 0;
        DeleteNoMatchUnchanged(table, c);
      }
    }

    /** `token_edit`: checks the request and finds the token. A non-empty `groups`
        list is joined into a string and assigned to the `groups` relationship, which
        the ORM refuses with a `TypeError` before anything is committed; so the table
        is left as it is on every path. */
    method TokenEdit(req: EditRequest) returns (r: EditResult)
      ensures !Given(req.token) ==> r == EditMessage("token required for updating")
      ensures Given(req.token) ==>
                (r.EditMessage? <==> forall x :: x in table ==> x.token != req.token.value)
      ensures Given(req.token) && r.EditMessage? ==> r == EditMessage("token not found")
      ensures Given(req.token) && !r.EditMessage? ==>
                (r == GroupsTypeError <==> req.groups.Some? && req.groups.value != [])
    {
      if !Given(req.token) {
        return EditMessage("token required for updating");
      }
      var t := req.token.value;
      HoldsAllSingleAll(t);
      var rv := Where(table, [TokenIs(t)]);
      if |rv| == 0 {
        return EditMessage("token not found");
      }
      assert rv[0] in rv;
      if req.groups.Some? && req.groups.value != [] {
        return GroupsTypeError;
      }
      r := Edited;
    }

    /** The body shared by `token_read` and `token_write`. */
    method Check(t: string, cap: Capability, now: int) returns (r: AuthResult)
      requires Valid()
      modifies this`cache, this`cacheCheck
      ensures Valid()
      ensures Checked(r, State()) == Authorize(table, old(State()), cacheDelay, t, cap, now)
    {
      AuthorizeKeyed(table, State(), cacheDelay, t, cap, now);
      if now > cacheCheck {
        cache := map[];
        cacheCheck := now + cacheDelay;
      }
      if t in cache && EntryAllows(cache[t], cap) {
        return Authorized(cache[t]);
      }
      var rows := Where(table, CapConds(t, cap, now));
      if |rows| == 0 {
        return Unauthorized;
      }
      if "token" !in cache {
        var names := CollectGroups(rows[0].groups);
        cache := cache[t := EntryOf(rows[0], names)];
      }
      if t in cache {
        r := Authorized(cache[t]);
      } else {
        r := KeyError;
      }
    }

    /** `token_read`: flush a stale cache, answer from a cached entry whose `read`
        is set, otherwise from the table, caching a positive answer. */
    method TokenRead(t: string, now: int) returns (r: AuthResult)
      requires Valid()
      modifies this`cache, this`cacheCheck
      ensures Valid()
      ensures Checked(r, State()) == Authorize(table, old(State()), cacheDelay, t, Read, now)
      ensures now <= cacheCheck
      ensures r.Authorized? ==> r.entry.token == t
      ensures now > old(cacheCheck) ==> cacheCheck == now + cacheDelay
    {
      r := Check(t, Read, now);
      AuthorizeKeyed(table, old(State()), cacheDelay, t, Read, now);
    }

    /** `token_write`: as `token_read`, for the `write` flag. */
    method TokenWrite(t: string, now: int) returns (r: AuthResult)
      requires Valid()
      modifies this`cache, this`cacheCheck
      ensures Valid()
      ensures Checked(r, State()) == Authorize(table, old(State()), cacheDelay, t, Write, now)
      ensures now <= cacheCheck
      ensures r.Authorized? ==> r.entry.token == t
      ensures now > old(cacheCheck) ==> cacheCheck == now + cacheDelay
    {
      r := Check(t, Write, now);
      AuthorizeKeyed(table, old(State()), cacheDelay, t, Write, now);
    }

    /** `token_last_activity_at(t, ts)`, `ts` being the timestamp argument (`None`:
        the current time). */
    method TokenLastActivityAt(t: string, ts: Option<int>, now: int) returns (r: Option<int>)
      requires Valid()
      modifies this
      ensures Valid()
      ensures Touched(r, table, State()) == Touch(old(table), old(State()), cacheDelay, t, ts, now)
      ensures cache.Keys <= old(cache).Keys
    {
      TouchKeepsInvariants(table, State(), cacheDelay, t, ts, now);
      ghost var after := Touch(table, State(), cacheDelay, t, ts, now).table;
      forall x | x in after
        ensures |x.groups| >= 1
      {
        var i :| 0 <= i < |after| && after[i] == x;
        assert table[i] in table;
      }
      var v := if ts.Some? then ts.value else now;
      if now > cacheCheck {
        cache := map[];
        cacheCheck := now + cacheDelay;
      }
      if t !in cache {
        return None;
      }
      match cache[t].lastActivityAt {
        case Present(Some(at)) =>
          r := Some(at);
        case Present(None) =>
          r := None;
        case Absent =>
          var n := RowsWithToken(table, t);
          table := SetLastActivity(table, t, v);
          if n > 0 {
            cache := cache[t := cache[t].(lastActivityAt := Present(Some(v)))];
            r := Some(v);
          } else {
            r := None;
          }
      }
    }
  }

  /** A client of the store: bob's read-only token is authorized to read and not
      to write; deleting it removes one row, yet the cached answer is served until
      the cache-wide expiry passes. */
  method ReadOnlyTokenLifecycle()
  {
    var store := new TokenStore(5);
    var req := CreateRequest(Some("bob"), AclMissing, true, false, None, false, None);
    var tok := store.TokensCreate(req, "tok1", 1);
    assert store.table == [tok];
    assert tok.groups == ["everyone"];

    AuthorizeMiss(store.table, store.State(), 5, "tok1", Read, 10);
    assert Qualifies(store.table[0], "tok1", Read, 10);
    var r1 := store.TokenRead("tok1", 10);
    assert r1.Authorized? && store.cacheCheck == 15;

    AuthorizeMissRefused(store.table, store.State(), 5, "tok1", Write, 10);
    var w := store.TokenWrite("tok1", 10);
    assert w == Unauthorized;

    var n := store.TokensDelete(Criteria(Some("tok1"), None));
    assert n == 1;

    var r2 := store.TokenRead("tok1", 11);
    assert r2.Authorized?;

    FlushRefusesDeleted([tok], store.State(), 5, "tok1", Read, 100);
    var r3 := store.TokenRead("tok1", 100);
    assert r3 == Unauthorized;
  }
}
