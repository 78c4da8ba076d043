/** The read-only queries of the token store (`tokens_search`, `tokens_admin_exists`,
    `token_admin`), the filters shared with `tokens_delete`, and the row that
    `tokens_create` builds. Each is a function of the `tokens` table. */
module TokenQueries {
  import opened Wrappers
  import opened TokenModel

  /** The `token` and `username` keys of a search or delete request. */
  datatype Criteria = Criteria(token: Option<string>, username: Option<string>)

  /** What a search means: an exact match on each key that is given (truthy), all of
      them together. A key that is absent or empty filters nothing. */
  predicate Matches(c: Criteria, r: TokenRec)
  {
    && (Given(c.token) ==> r.token == c.token.value)
    && (Given(c.username) ==> r.username == c.username)
  }

  /** The filter chain of `tokens_search`: token first, then username. */
  function SearchConds(c: Criteria): (cs: seq<Cond>)
    ensures forall r :: HoldsAll(cs, r) <==> Matches(c, r)
  {
    var byToken := if Given(c.token) then [TokenIs(c.token.value)] else [];
    var byUser := if Given(c.username) then [UsernameIs(c.username.value)] else [];
    forall r
      ensures HoldsAll(byToken + byUser, r) <==> Matches(c, r)
    {
      HoldsAllAppend(byToken, byUser, r);
      if Given(c.token) { HoldsAllSingle(TokenIs(c.token.value), r); }
      if Given(c.username) { HoldsAllSingle(UsernameIs(c.username.value), r); }
    }
    byToken + byUser
  }

  /** The filter chain of `tokens_delete`: username first, then token. */
  function DeleteConds(c: Criteria): (cs: seq<Cond>)
    ensures forall r :: HoldsAll(cs, r) <==> Matches(c, r)
  {
    var byUser := if Given(c.username) then [UsernameIs(c.username.value)] else [];
    var byToken := if Given(c.token) then [TokenIs(c.token.value)] else [];
    forall r
      ensures HoldsAll(byUser + byToken, r) <==> Matches(c, r)
    {
      HoldsAllAppend(byUser, byToken, r);
      if Given(c.token) { HoldsAllSingle(TokenIs(c.token.value), r); }
      if Given(c.username) { HoldsAllSingle(UsernameIs(c.username.value), r); }
    }
    byUser + byToken
  }

  lemma HoldsAllAppend(a: seq<Cond>, b: seq<Cond>, r: TokenRec)
    ensures HoldsAll(a + b, r) <==> HoldsAll(a, r) && HoldsAll(b, r)
  {
    if HoldsAll(a, r) && HoldsAll(b, r) {
      forall i | 0 <= i < |a + b|
        ensures Holds((a + b)[i], r)
      {
        if i < |a| { assert (a + b)[i] == a[i]; } else { assert (a + b)[i] == b[i - |a|]; }
      }
    }
    if HoldsAll(a + b, r) {
      forall i | 0 <= i < |a|
        ensures Holds(a[i], r)
      {
        assert (a + b)[i] == a[i];
      }
      forall i | 0 <= i < |b|
        ensures Holds(b[i], r)
      {
        assert (a + b)[i + |a|] == b[i];
      }
    }
  }

  /** `tokens_search`: the matching rows in table order, `[]` when none match. */
  function TokensSearch(table: seq<TokenRec>, c: Criteria): (r: seq<TokenRec>)
    ensures forall x :: x in r <==> x in table && Matches(c, x)
  {
    var rv := Where(table, SearchConds(c));
    if |rv| > 0 then rv else []
  }

  /** The table after `tokens_delete(c)`: the rows that do not match, in order. */
  function Remaining(table: seq<TokenRec>, c: Criteria): (r: seq<TokenRec>)
    ensures forall x :: x in r <==> x in table && !Matches(c, x)
  {
    Except(table, DeleteConds(c))
  }

  /** A search keeps table order: over two stretches of the table it is the search
      over the first followed by the search over the second. */
  lemma SearchAppend(a: seq<TokenRec>, b: seq<TokenRec>, c: Criteria)
    ensures TokensSearch(a + b, c) == TokensSearch(a, c) + TokensSearch(b, c)
  {
    WhereAppend(a, b, SearchConds(c));
  }

  /** With neither key given, a search returns the whole table. */
  lemma {:induction false} SearchUnfilteredIsTable(table: seq<TokenRec>, c: Criteria)
    requires !Given(c.token) && !Given(c.username)
    ensures TokensSearch(table, c) == table
    decreases |table|
  {
    if table != [] {
      SearchUnfilteredIsTable(table[1..], c);
      WhereAppend([table[0]], table[1..], SearchConds(c));
      WhereSingle(table[0], SearchConds(c));
      assert [table[0]] + table[1..] == table;
    }
  }

  /** `tokens_delete` removes exactly the rows `tokens_search` finds for the same
      request, so its count plus the rows left make up the old table. */
  lemma DeleteCount(table: seq<TokenRec>, c: Criteria)
    ensures |TokensSearch(table, c)| + |Remaining(table, c)| == |table|
  {
    WhereSameConds(table, SearchConds(c), DeleteConds(c));
    WhereExceptCount(table, DeleteConds(c));
  }

  /** A delete that matches nothing leaves the table unchanged. */
  lemma DeleteNoMatchUnchanged(table: seq<TokenRec>, c: Criteria)
    requires TokensSearch(table, c) == []
    ensures Remaining(table, c) == table
  {
    WhereSameConds(table, SearchConds(c), DeleteConds(c));
    ExceptNoneMatch(table, DeleteConds(c));
  }

  /** A delete keeps the order of the rows it does not remove. */
  lemma DeleteAppend(a: seq<TokenRec>, b: seq<TokenRec>, c: Criteria)
    ensures Remaining(a + b, c) == Remaining(a, c) + Remaining(b, c)
  {
    ExceptAppend(a, b, DeleteConds(c));
  }

  /** After a delete, the same search finds nothing. */
  lemma SearchAfterDelete(table: seq<TokenRec>, c: Criteria)
    ensures TokensSearch(Remaining(table, c), c) == []
  {
    WhereAfterExcept(table, DeleteConds(c));
    WhereSameConds(Remaining(table, c), SearchConds(c), DeleteConds(c));
  }

  /** A delete request with neither key given removes every token. */
  lemma DeleteUnfilteredEmptiesTable(table: seq<TokenRec>, c: Criteria)
    requires !Given(c.token) && !Given(c.username)
    ensures Remaining(table, c) == []
  {
    ExceptAllHold(table, DeleteConds(c));
  }

  /** `tokens_admin_exists`: the token string of the first row flagged admin, if any. */
  function TokensAdminExists(table: seq<TokenRec>): (r: Option<string>)
    ensures r.Some? <==> exists i :: 0 <= i < |table| && table[i].admin
    ensures r.Some? ==> exists i :: 0 <= i < |table| && table[i].admin && table[i].token == r.value
                                    && forall j :: 0 <= j < i ==> !table[j].admin
  {
    var cs := [AdminIsTrue];
    assert forall x :: HoldsAll(cs, x) <==> x.admin by {
      assert cs[0] == AdminIsTrue;
    }
    var rv := Where(table, cs);
    if |rv| > 0 then
      WhereFirst(table, cs);
      Some(rv[0].token)
    else
      assert forall i :: 0 <= i < |table| ==> table[i] in table;
      None
  }

  /** The filter chain of `token_admin`. */
  function AdminConds(t: string): seq<Cond>
  {
    [TokenIs(t), AdminIsTrue, RevokedFilter]
  }

  /** `token_admin(t)`: whether some row has token `t` and the admin flag. The source
      returns `True` or `None`; `None` is `false` here. The `revoked` flag is not
      consulted. */
  function TokenAdmin(table: seq<TokenRec>, t: string): (r: bool)
    ensures r <==> exists i :: 0 <= i < |table| && table[i].token == t && table[i].admin
  {
    var cs := AdminConds(t);
    assert forall x :: HoldsAll(cs, x) <==> x.token == t && x.admin by {
      assert cs[0] == TokenIs(t) && cs[1] == AdminIsTrue && cs[2] == Constant(true);
    }
    assert forall i :: 0 <= i < |table| ==> table[i] in table;
    var rv := Where(table, cs);
    assert |rv| > 0 ==> rv[0] in rv;
    |rv| > 0
  }

  /** Revoking an admin token does not take its admin rights away. */
  lemma RevokedAdminStillAdmin(table: seq<TokenRec>, i: nat)
    requires i < |table| && table[i].admin
    ensures TokenAdmin(table[i := table[i].(revoked := true)], table[i].token)
  {
    var t' := table[i := table[i].(revoked := true)];
    assert t'[i].token == table[i].token && t'[i].admin;
  }

  /** The `acl` key of a create request. */
  datatype AclInput = AclMissing | AclText(text: string) | AclList(items: seq<string>)

  /** A create request; `expires` is already parsed into a time, and `group` is
      `None` when the key is missing. */
  datatype CreateRequest = CreateRequest(
    username: Option<string>,
    acl: AclInput,
    read: bool,
    write: bool,
    expires: Option<int>,
    admin: bool,
    group: Option<string>)

  /** The `acl` column: a list is joined with commas, anything else is kept. */
  function StoredAcl(a: AclInput): Option<string>
  {
    match a
    case AclMissing => None
    case AclText(s) => Some(s)
    case AclList(items) => Some(Join(items))
  }

  /** The one group of a new token. */
  function GroupName(req: CreateRequest): string
  {
    if req.group.Some? then req.group.value else "everyone"
  }

  /** The row `tokens_create` adds, with the generated token string and the id the
      database assigns. `revoked` and `last_activity_at` are left NULL. */
  function NewToken(req: CreateRequest, token: string, id: int): TokenRec
  {
    TokenRec(id, req.username, token, req.expires, req.read, req.write, false,
      StoredAcl(req.acl), req.admin, None, [GroupName(req)])
  }

  /** An acl list of comma-free names can be read back from the stored column. */
  lemma CreatedAclRoundTrip(req: CreateRequest, token: string, id: int)
    requires req.acl.AclList? && |req.acl.items| >= 1
    requires forall i :: 0 <= i < |req.acl.items| ==> ',' !in req.acl.items[i]
    ensures NewToken(req, token, id).acl.Some?
    ensures Split(NewToken(req, token, id).acl.value) == req.acl.items
  {
    SplitJoin(req.acl.items);
  }

  /** A created token is found by searching for its token string, and only it. */
  lemma CreateThenSearchByToken(table: seq<TokenRec>, req: CreateRequest, token: string, id: int)
    requires token != ""
    requires forall x :: x in table ==> x.token != token
    ensures TokensSearch(table + [NewToken(req, token, id)], Criteria(Some(token), None))
            == [NewToken(req, token, id)]
  {
    var r := NewToken(req, token, id);
    var c := Criteria(Some(token), None);
    SearchAppend(table, [r], c);
    WhereSingle(r, SearchConds(c));
    WhereNoneHold(table, SearchConds(c));
  }

  /** A created token joins the end of the search results for its username. */
  lemma CreateThenSearchByUsername(table: seq<TokenRec>, req: CreateRequest, token: string, id: int)
    requires Given(req.username)
    ensures TokensSearch(table + [NewToken(req, token, id)], Criteria(None, req.username))
            == TokensSearch(table, Criteria(None, req.username)) + [NewToken(req, token, id)]
  {
    var r := NewToken(req, token, id);
    var c := Criteria(None, req.username);
    SearchAppend(table, [r], c);
    WhereSingle(r, SearchConds(c));
  }

  /** The request of `token_edit`. */
  datatype EditRequest = EditRequest(token: Option<string>, groups: Option<seq<string>>)

  /** What `token_edit` does: return one of its two messages or `True`, or raise the
      `TypeError` of assigning a string to the `groups` collection. */
  datatype EditResult = EditMessage(text: string) | Edited | GroupsTypeError
}
