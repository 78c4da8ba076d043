/** The records of the token store: the `tokens` table with its owned groups,
    the conditions a query filters by, and the entries of the authorization cache. */
module TokenModel {
  import opened Wrappers

  /** One row of the `tokens` table. A flag stored as NULL reads as false.
      `groups` holds the names of the `groups` rows owned by this token, in order:
      they are created and deleted together with the token. */
  datatype TokenRec = TokenRec(
    id: int,
    username: Option<string>,
    token: string,
    expires: Option<int>,
    read: bool,
    write: bool,
    revoked: bool,
    acl: Option<string>,
    admin: bool,
    lastActivityAt: Option<int>,
    groups: seq<string>)

  /** One condition of a query's `filter_by(...)` / `filter(...)` chain. `Constant(b)`
      is a filter whose argument Python evaluated to a plain boolean before the query
      was built. */
  datatype Cond =
    | TokenIs(token: string)
    | UsernameIs(username: string)
    | AdminIsTrue
    | ReadIsTrue
    | WriteIsTrue
    | UnexpiredAt(now: int)
    | Constant(value: bool)

  /** What `Token.revoked is not True` evaluates to: an identity test on the column
      object, which is never the `True` singleton, so the filter keeps every row. */
  const RevokedFilter: Cond := Constant(true)

  predicate Holds(c: Cond, r: TokenRec)
  {
    match c
    case TokenIs(t) => r.token == t
    case UsernameIs(u) => r.username == Some(u)
    case AdminIsTrue => r.admin
    case ReadIsTrue => r.read
    case WriteIsTrue => r.write
    case UnexpiredAt(now) => r.expires.None? || r.expires.value > now
    case Constant(b) => b
  }

  /** A row passes a query when it passes every condition of the chain. */
  predicate HoldsAll(cs: seq<Cond>, r: TokenRec)
  {
    forall i :: 0 <= i < |cs| ==> Holds(cs[i], r)
  }

  /** A one-condition chain is that condition. */
  lemma HoldsAllSingle(c: Cond, r: TokenRec)
    ensures HoldsAll([c], r) <==> Holds(c, r)
  {
    assert [c][0] == c;
  }

  /** The rows a query returns, in table order. */
  function Where(rows: seq<TokenRec>, cs: seq<Cond>): (r: seq<TokenRec>)
    ensures |r| <= |rows|
    ensures forall x :: x in r <==> x in rows && HoldsAll(cs, x)
    decreases |rows|
  {
    if rows == [] then []
    else (if HoldsAll(cs, rows[0]) then [rows[0]] else []) + Where(rows[1..], cs)
  }

  /** The rows a bulk `delete()` of the same query leaves behind, in table order. */
  function Except(rows: seq<TokenRec>, cs: seq<Cond>): (r: seq<TokenRec>)
    ensures |r| <= |rows|
    ensures forall x :: x in r <==> x in rows && !HoldsAll(cs, x)
    decreases |rows|
  {
    if rows == [] then []
    else (if HoldsAll(cs, rows[0]) then [] else [rows[0]]) + Except(rows[1..], cs)
  }

  /** A query over two stretches of the table is the query over each, in order:
      together with `WhereSingle`, this pins `Where` down as the order-keeping filter. */
  lemma {:induction false} WhereAppend(a: seq<TokenRec>, b: seq<TokenRec>, cs: seq<Cond>)
    ensures Where(a + b, cs) == Where(a, cs) + Where(b, cs)
    decreases |a|
  {
    if a == [] {
      assert a + b == b;
    } else {
      assert (a + b)[1..] == a[1..] + b;
      WhereAppend(a[1..], b, cs);
    }
  }

  lemma WhereSingle(x: TokenRec, cs: seq<Cond>)
    ensures Where([x], cs) == if HoldsAll(cs, x) then [x] else []
  {
    assert [x][1..] == [];
  }

  lemma {:induction false} ExceptAppend(a: seq<TokenRec>, b: seq<TokenRec>, cs: seq<Cond>)
    ensures Except(a + b, cs) == Except(a, cs) + Except(b, cs)
    decreases |a|
  {
    if a == [] {
      assert a + b == b;
    } else {
      assert (a + b)[1..] == a[1..] + b;
      ExceptAppend(a[1..], b, cs);
    }
  }

  /** The first row a query returns (`query.first()`) is the earliest row of the
      table that passes it. */
  lemma {:induction false} WhereFirst(rows: seq<TokenRec>, cs: seq<Cond>)
    requires Where(rows, cs) != []
    ensures exists i :: 0 <= i < |rows| && rows[i] == Where(rows, cs)[0] && HoldsAll(cs, rows[i])
                     && forall j :: 0 <= j < i ==> !HoldsAll(cs, rows[j])
    decreases |rows|
  {
    if HoldsAll(cs, rows[0]) {
      assert rows[0] == Where(rows, cs)[0];
    } else {
      assert Where(rows, cs) == Where(rows[1..], cs);
      WhereFirst(rows[1..], cs);
      var i :| 0 <= i < |rows[1..]| && rows[1..][i] == Where(rows[1..], cs)[0]
        && HoldsAll(cs, rows[1..][i]) && forall j :: 0 <= j < i ==> !HoldsAll(cs, rows[1..][j]);
      assert rows[i + 1] == rows[1..][i];
      forall j | 0 <= j < i + 1
        ensures !HoldsAll(cs, rows[j])
      {
        if j > 0 { assert rows[j] == rows[1..][j - 1]; }
      }
    }
  }

  /** `count()` of a query and the number of rows its `delete()` leaves add up to
      the size of the table. */
  lemma {:induction false} WhereExceptCount(rows: seq<TokenRec>, cs: seq<Cond>)
    ensures |Where(rows, cs)| + |Except(rows, cs)| == |rows|
    decreases |rows|
  {
    if rows != [] {
      WhereExceptCount(rows[1..], cs);
    }
  }

  /** A query no row passes returns nothing. */
  lemma {:induction false} WhereNoneHold(rows: seq<TokenRec>, cs: seq<Cond>)
    requires forall x :: x in rows ==> !HoldsAll(cs, x)
    ensures Where(rows, cs) == []
    decreases |rows|
  {
    if rows != [] {
      assert rows[0] in rows;
      WhereNoneHold(rows[1..], cs);
    }
  }

  /** Converse of `WhereNoneHold`: an empty answer means no row passes. */
  lemma WhereNoneHoldConverse(rows: seq<TokenRec>, cs: seq<Cond>)
    requires Where(rows, cs) == []
    ensures forall i :: 0 <= i < |rows| ==> !HoldsAll(cs, rows[i])
  {
    assert forall i :: 0 <= i < |rows| ==> rows[i] in rows;
  }

  /** A `delete()` every row passes empties the table. */
  lemma {:induction false} ExceptAllHold(rows: seq<TokenRec>, cs: seq<Cond>)
    requires forall x :: x in rows ==> HoldsAll(cs, x)
    ensures Except(rows, cs) == []
    decreases |rows|
  {
    if rows != [] {
      assert rows[0] in rows;
      ExceptAllHold(rows[1..], cs);
    }
  }

  /** After a `delete()`, the same query finds nothing. */
  lemma {:induction false} WhereAfterExcept(rows: seq<TokenRec>, cs: seq<Cond>)
    ensures Where(Except(rows, cs), cs) == []
    decreases |rows|
  {
    if rows != [] {
      WhereAfterExcept(rows[1..], cs);
      if !HoldsAll(cs, rows[0]) {
        assert Except(rows, cs) == [rows[0]] + Except(rows[1..], cs);
        WhereAppend([rows[0]], Except(rows[1..], cs), cs);
        WhereSingle(rows[0], cs);
      } else {
        assert Except(rows, cs) == Except(rows[1..], cs);
      }
    }
  }

  /** A `delete()` that matches no row leaves the table as it was. */
  lemma {:induction false} ExceptNoneMatch(rows: seq<TokenRec>, cs: seq<Cond>)
    requires Where(rows, cs) == []
    ensures Except(rows, cs) == rows
    decreases |rows|
  {
    if rows != [] {
      assert !HoldsAll(cs, rows[0]) by { assert rows[0] in rows; }
      ExceptNoneMatch(rows[1..], cs);
      assert [rows[0]] + rows[1..] == rows;
    }
  }

  /** Two condition chains that keep the same rows give the same query. */
  lemma {:induction false} WhereSameConds(rows: seq<TokenRec>, cs1: seq<Cond>, cs2: seq<Cond>)
    requires forall x :: HoldsAll(cs1, x) <==> HoldsAll(cs2, x)
    ensures Where(rows, cs1) == Where(rows, cs2)
    ensures Except(rows, cs1) == Except(rows, cs2)
    decreases |rows|
  {
    if rows != [] {
      WhereSameConds(rows[1..], cs1, cs2);
    }
  }

  /** Appending the no-op filter changes no query's answer. */
  lemma ConstantTrueIsNoOp(cs: seq<Cond>, r: TokenRec)
    ensures HoldsAll(cs + [Constant(true)], r) <==> HoldsAll(cs, r)
  {
    if HoldsAll(cs, r) {
      forall i | 0 <= i < |cs + [Constant(true)]|
        ensures Holds((cs + [Constant(true)])[i], r)
      {
        if i < |cs| { assert (cs + [Constant(true)])[i] == cs[i]; }
      }
    }
    if HoldsAll(cs + [Constant(true)], r) {
      forall i | 0 <= i < |cs|
        ensures Holds(cs[i], r)
      {
        assert (cs + [Constant(true)])[i] == cs[i];
      }
    }
  }

  /** Every token string occurs in at most one row. */
  ghost predicate UniqueTokens(rows: seq<TokenRec>)
  {
    forall i, j :: 0 <= i < j < |rows| ==> rows[i].token != rows[j].token
  }

  lemma UniqueTokensCons(x: TokenRec, rest: seq<TokenRec>)
    requires UniqueTokens(rest)
    requires forall y :: y in rest ==> y.token != x.token
    ensures UniqueTokens([x] + rest)
  {
    var r := [x] + rest;
    forall i, j | 0 <= i < j < |r|
      ensures r[i].token != r[j].token
    {
      assert r[j] == rest[j - 1];
      if i > 0 { assert r[i] == rest[i - 1]; }
    }
  }

  lemma UniqueTokensTail(rows: seq<TokenRec>)
    requires rows != [] && UniqueTokens(rows)
    ensures UniqueTokens(rows[1..])
    ensures forall y :: y in rows[1..] ==> y.token != rows[0].token
  {
    forall y | y in rows[1..]
      ensures y.token != rows[0].token
    {
      var k :| 0 <= k < |rows[1..]| && rows[1..][k] == y;
      assert rows[k + 1] == y;
    }
  }

  /** Appending a row whose token string is new keeps token strings unique. */
  lemma UniqueTokensSnoc(rows: seq<TokenRec>, x: TokenRec)
    requires UniqueTokens(rows)
    requires forall y :: y in rows ==> y.token != x.token
    ensures UniqueTokens(rows + [x])
  {
    var r := rows + [x];
    forall i, j | 0 <= i < j < |r|
      ensures r[i].token != r[j].token
    {
      assert r[i] == rows[i];
      if j < |rows| { assert r[j] == rows[j]; } else { assert rows[i] in rows; }
    }
  }

  /** Deleting rows keeps token strings unique. */
  lemma {:induction false} ExceptKeepsUnique(rows: seq<TokenRec>, cs: seq<Cond>)
    requires UniqueTokens(rows)
    ensures UniqueTokens(Except(rows, cs))
    decreases |rows|
  {
    if rows != [] {
      UniqueTokensTail(rows);
      ExceptKeepsUnique(rows[1..], cs);
      if !HoldsAll(cs, rows[0]) {
        UniqueTokensCons(rows[0], Except(rows[1..], cs));
      }
    }
  }

  /** The `acl` column: a list given at creation is stored joined with commas. */
  function Join(items: seq<string>): (s: string)
    decreases |items|
  {
    if items == [] then ""
    else if |items| == 1 then items[0]
    else items[0] + "," + Join(items[1..])
  }

  /** The inverse of `Join`: the comma-separated fields of a string. */
  function Split(s: string): (r: seq<string>)
    ensures |r| >= 1
    decreases |s|
  {
    if s == [] then [""]
    else
      var rest := Split(s[1..]);
      if s[0] == ',' then [""] + rest
      else [[s[0]] + rest[0]] + rest[1..]
  }

  lemma {:induction false} SplitNoComma(a: string)
    requires ',' !in a
    ensures Split(a) == [a]
    decreases |a|
  {
    if a != [] {
      SplitNoComma(a[1..]);
      assert [a[0]] + a[1..] == a;
    }
  }

  lemma {:induction false} SplitField(a: string, s: string)
    requires ',' !in a
    ensures Split(a + "," + s) == [a] + Split(s)
    decreases |a|
  {
    if a == [] {
      assert a + "," + s == [','] + s;
      assert ([','] + s)[1..] == s;
    } else {
      var w := a + "," + s;
      assert w[1..] == a[1..] + "," + s;
      SplitField(a[1..], s);
      assert [a[0]] + a[1..] == a;
    }
  }

  /** Joining a non-empty list of comma-free items loses nothing: the stored `acl`
      can be split back into the list that was given. */
  lemma {:induction false} SplitJoin(items: seq<string>)
    requires |items| >= 1
    requires forall i :: 0 <= i < |items| ==> ',' !in items[i]
    ensures Split(Join(items)) == items
    decreases |items|
  {
    if |items| == 1 {
      SplitNoComma(items[0]);
    } else {
      SplitJoin(items[1..]);
      SplitField(items[0], Join(items[1..]));
      assert [items[0]] + items[1..] == items;
    }
  }

  /** A key of a cached record that may be missing from the dictionary. */
  datatype Slot<T> = Absent | Present(value: T)

  /** An entry of the authorization cache: the row as a dictionary plus the list of
      its group names. A NULL `last_activity_at` is a missing key. */
  datatype CacheEntry = CacheEntry(
    id: int,
    username: Option<string>,
    token: string,
    expires: Option<int>,
    read: bool,
    write: bool,
    revoked: bool,
    acl: Option<string>,
    admin: bool,
    lastActivityAt: Slot<Option<int>>,
    groups: seq<string>)

  /** The dictionary of a row, with `names` as its `groups` list. */
  function EntryOf(r: TokenRec, names: seq<string>): (e: CacheEntry)
    ensures e.id == r.id && e.username == r.username && e.token == r.token
    ensures e.expires == r.expires && e.acl == r.acl
    ensures e.read == r.read && e.write == r.write && e.admin == r.admin && e.revoked == r.revoked
    ensures e.groups == names
    ensures e.lastActivityAt.Absent? <==> r.lastActivityAt.None?
    ensures r.lastActivityAt.Some? ==> e.lastActivityAt == Present(r.lastActivityAt)
  {
    CacheEntry(r.id, r.username, r.token, r.expires, r.read, r.write, r.revoked, r.acl, r.admin,
      if r.lastActivityAt.None? then Absent else Present(r.lastActivityAt), names)
  }
}
