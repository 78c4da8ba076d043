# Token store of the CIF SQLite backend, modelled in Dafny

This project models the token store of `cif/store/sqlite/token.py`. The store issues, searches, edits and deletes API tokens. A token has read, write and admin flags and one or more groups. The store also answers the hot-path questions "may this token read?" and "may this token write?" through a process-local cache. The whole cache is dropped once it passes a cache-wide expiry.

The state is the class `Store.TokenStore`:

- `table`: the `tokens` table as a sequence of `TokenRec` rows. Each row owns its group names (`groups`): creating a token creates its group, and deleting a token is taken to delete its groups with it (see "## Left out").
- `cache`: `token_cache`, a map from token string to `CacheEntry`. An entry is the row as a dictionary plus its list of group names.
- `cacheCheck`: `token_cache_check`, the time after which the cache is flushed.
- `cacheDelay`: the constant `TOKEN_CACHE_DELAY` (a `nat`).

The current time is the parameter `now`. A database query is a list of filter conditions (`TokenModel.Cond`) applied to the table in order (`TokenModel.Where`). A bulk delete keeps the rows that fail the filter (`TokenModel.Except`).

Modules:

- `Wrappers` holds `Option` and Python truthiness of an optional string (`Given`).
- `TokenModel` holds the records, the filter conditions, `Where`/`Except` and their lemmas, and the comma join of `acl` with its inverse `Split`.
- `TokenQueries` holds the read-only queries (`tokens_search`, `tokens_admin_exists`, `token_admin`), the delete filter and the row `tokens_create` builds.
- `TokenCache` holds the read/write checks and the activity update as functions of the table and the cache state, with their properties.
- `Store` holds the class. Each method's `ensures` ties the new state and the result to those functions.

Two behaviours of the code are modelled as written:

- **Revocation is never checked.** `Token.revoked is not True` (lines 59, 144, 172) compares the column object with `True` by identity. Python evaluates it to `True` before the query is built, so the filter keeps every row (`TokenModel.RevokedFilter`, `Constant(true)`). A revoked token is still reported as admin (`TokenQueries.RevokedAdminStillAdmin`). It still passes the read and write checks (`TokenCache.RevokedTokenAuthorized`).
- **The cache-population test uses a literal key.** `self.token_cache.get('token')` (lines 148, 176) looks up the key `"token"`, not the token being checked. A cached record is a non-empty dictionary, so the test only asks whether an entry keyed `"token"` exists. If none exists, a successful query (re)writes the entry for the token. If one does exist, the entry is not written. A token that is not cached then makes `return self.token_cache[token]` raise `KeyError` (`TokenCache.LiteralKeyRaises`). A token cached without the flag gets its stale, unflagged entry back (`TokenCache.LiteralKeyReturnsUnflagged`).

A delete never touches the cache, so a cached positive answer outlives it until the next flush (`TokenCache.StaleEntryOutlivesDelete`, `TokenCache.FlushRefusesDeleted`). `Store.ReadOnlyTokenLifecycle` plays this through: create, read, write, delete, then read again before and after the flush.

## Model

| member | source | states |
|---|---|---|
| `TokenModel.Where` | cif/store/sqlite/token.py:99-104 | a query returns at most the table's rows, and exactly those that pass every condition of the filter chain |
| `TokenModel.Except` | cif/store/sqlite/token.py:121-123 | a bulk delete leaves exactly the rows that fail the filter chain |
| `TokenModel.WhereAppend` | cif/store/sqlite/token.py:106-107 | a query keeps table order: on a concatenated table it is the query on each part, in order |
| `TokenModel.ExceptAppend` | cif/store/sqlite/token.py:121-123 | a bulk delete keeps the order of the rows it leaves |
| `TokenModel.WhereFirst` | cif/store/sqlite/token.py:94-96 | `first()` of a non-empty query is the earliest row of the table that passes it |
| `TokenModel.WhereExceptCount` | cif/store/sqlite/token.py:121-125 | the query's `count()` plus the rows its delete leaves is the size of the table |
| `TokenModel.ExceptNoneMatch` | cif/store/sqlite/token.py:121-127 | a delete whose query matches nothing leaves the table unchanged |
| `TokenModel.WhereNoneHold` | cif/store/sqlite/token.py:106-109 | a query that no row passes returns the empty list |
| `TokenModel.ExceptAllHold` | cif/store/sqlite/token.py:115-123 | a delete that every row passes empties the table |
| `TokenModel.WhereAfterExcept` | cif/store/sqlite/token.py:115-124 | after a delete, the same query finds nothing |
| `TokenModel.WhereSameConds` | cif/store/sqlite/token.py:99-119 | two filter chains that keep the same rows give the same query and the same delete |
| `TokenModel.ConstantTrueIsNoOp` | cif/store/sqlite/token.py:59 | appending the filter `revoked is not True`, which evaluates to `True`, changes no row's outcome |
| `TokenModel.ExceptKeepsUnique` | cif/store/sqlite/token.py:121-124 | deleting rows keeps token strings unique |
| `TokenModel.SplitJoin` | cif/store/sqlite/token.py:67-69 | joining a non-empty list of comma-free acl names with `","` can be split back into the same list |
| `TokenModel.EntryOf` | cif/store/sqlite/token.py:149-150 | the cached record has every column of the row (id, username, token, expires, flags, acl) and the given group list; `last_activity_at` is missing exactly when it is NULL and holds the row's value otherwise |
| `TokenQueries.SearchConds` | cif/store/sqlite/token.py:100-104 | the search chain keeps a row iff it matches every given (truthy) key exactly |
| `TokenQueries.DeleteConds` | cif/store/sqlite/token.py:116-119 | the delete chain keeps a row iff it matches every given (truthy) key exactly |
| `TokenQueries.TokensSearch` | cif/store/sqlite/token.py:98-109 | the result holds exactly the rows of the table that match every given key |
| `TokenQueries.SearchAppend` | cif/store/sqlite/token.py:106-107 | search results come in table order |
| `TokenQueries.SearchUnfilteredIsTable` | cif/store/sqlite/token.py:99-107 | with neither key given, a search returns the whole table in order |
| `TokenQueries.Remaining` | cif/store/sqlite/token.py:112-124 | the table after a delete holds exactly the rows that do not match the request |
| `TokenQueries.DeleteCount` | cif/store/sqlite/token.py:121-125 | the number deleted plus the rows left is the old table size; the deleted rows are the search's rows |
| `TokenQueries.DeleteNoMatchUnchanged` | cif/store/sqlite/token.py:121-127 | a delete that matches nothing leaves the table unchanged |
| `TokenQueries.DeleteAppend` | cif/store/sqlite/token.py:123 | a delete keeps the order of the rows it leaves |
| `TokenQueries.SearchAfterDelete` | cif/store/sqlite/token.py:112-124 | after a delete, the same search returns `[]` |
| `TokenQueries.DeleteUnfilteredEmptiesTable` | cif/store/sqlite/token.py:115-124 | a delete with neither key given removes every token |
| `TokenQueries.TokensAdminExists` | cif/store/sqlite/token.py:93-96 | returns a token iff some row is admin, and then it is the token of the first admin row |
| `TokenQueries.TokenAdmin` | cif/store/sqlite/token.py:55-62 | true iff some row has this token and the admin flag |
| `TokenQueries.RevokedAdminStillAdmin` | cif/store/sqlite/token.py:59 | revoking an admin row leaves its token admin |
| `TokenQueries.CreatedAclRoundTrip` | cif/store/sqlite/token.py:67-69 | a created token's acl, given as a list of comma-free names, splits back into that list |
| `TokenQueries.CreateThenSearchByToken` | cif/store/sqlite/token.py:74-91 | after a create with a new token string, searching for that token returns exactly the new row |
| `TokenQueries.CreateThenSearchByUsername` | cif/store/sqlite/token.py:74-91 | after a create, a search for its username returns the earlier matches followed by the new row |
| `TokenCache.CapCondsMeaning` | cif/store/sqlite/token.py:141-145 | a row passes the cache-miss query iff it has the token, the capability flag and no expiry or an expiry after `now`; `revoked` plays no part |
| `TokenCache.Refresh` | cif/store/sqlite/token.py:130-132 | past the expiry the cache is emptied and its expiry set to `now + delay`; otherwise it is kept as it is; afterwards `now <= check` |
| `TokenCache.Authorize` | cif/store/sqlite/token.py:129-182 | after a check, `now` is at or before the cache-wide expiry |
| `TokenCache.AuthorizeMiss` | cif/store/sqlite/token.py:141-154 | on a miss with no `"token"` entry, the token is authorized iff some row has it with the flag and no past expiry; no `KeyError` arises |
| `TokenCache.AuthorizeMissRefused` | cif/store/sqlite/token.py:141-154 | on a miss that no row qualifies for, the answer is `None` and the flushed cache gets no entry |
| `TokenCache.AuthorizeMissCaches` | cif/store/sqlite/token.py:147-154 | on a miss with no `"token"` entry, the first row that qualifies, with its group names, is cached under the token and returned |
| `TokenCache.StaleEntryOutlivesDelete` | cif/store/sqlite/token.py:134-137 | before the expiry, a cached entry with the flag is returned unchanged even after `tokens_delete` removed its token |
| `TokenCache.FlushRefusesDeleted` | cif/store/sqlite/token.py:130-132 | after the expiry, a deleted token is refused and the cache is left empty with expiry `now + delay` |
| `TokenCache.RevokedTokenAuthorized` | cif/store/sqlite/token.py:141-154 | past the cache expiry, a revoked row that is the first with the token, the flag and no past expiry is returned and becomes the only cache entry, under its token |
| `TokenCache.CacheHit` | cif/store/sqlite/token.py:134-137 | a cached entry with the flag set is returned and the refreshed cache is left as it is, whatever the table holds |
| `TokenCache.AuthorizeKeyed` | cif/store/sqlite/token.py:147-154 | a check keeps every entry under its own token; it returns the entry of the token asked about, with the flag set unless an entry keyed `"token"` is cached |
| `TokenCache.LiteralKeyRaises` | cif/store/sqlite/token.py:147-154 | with a `"token"` entry cached, a qualifying token that is not cached raises `KeyError` and the cache is unchanged |
| `TokenCache.LiteralKeyReturnsUnflagged` | cif/store/sqlite/token.py:175-182 | with a `"token"` entry cached, a token cached without the flag gets that unflagged entry back, even when the table grants the flag |
| `TokenCache.SetLastActivity` | cif/store/sqlite/token.py:217 | the update sets `last_activity_at` of every row with the token; no other row and no other column changes |
| `TokenCache.RowsWithToken` | cif/store/sqlite/token.py:217-220 | the update's row count is positive iff some row has the token |
| `TokenCache.Touch` | cif/store/sqlite/token.py:203-225 | `now` ends at or before the cache expiry; the activity update never adds a cache entry |
| `TokenCache.TouchOutcomes` | cif/store/sqlite/token.py:207-224 | an uncached token gives `None` with nothing changed; a cached `last_activity_at` is returned with the cache unchanged; a missing key that the update finds rows for is filled in with the timestamp in that entry only and the timestamp is returned; otherwise `None` |
| `TokenCache.SetLastActivityNoMatch` | cif/store/sqlite/token.py:217-224 | an update that matches no row leaves the table unchanged |
| `TokenCache.TouchWritesOnlyMissingKey` | cif/store/sqlite/token.py:212-224 | the table changes only when the cached entry lacks `last_activity_at`; then it is the update, and the timestamp is returned iff some row has the token |
| `TokenCache.TouchKeepsInvariants` | cif/store/sqlite/token.py:203-225 | the activity update keeps the rows' tokens and groups, unique tokens and a cache keyed by token |
| `Store.CollectGroups` | cif/store/sqlite/token.py:150-152 | the loop builds the list of the token's group names in order |
| `Store.TokenStore.TokensCreate` | cif/store/sqlite/token.py:64-91 | appends exactly one row, leaving the others; copies username, read, write, admin, expires; stores acl as given or joined; one group, `group` or `"everyone"`; the new token is found by searching for it |
| `Store.TokenStore.TokensDelete` | cif/store/sqlite/token.py:112-127 | the table becomes the non-matching rows; returns the number removed, which is the search's count; 0 leaves the table unchanged; the cache is not touched |
| `Store.TokenStore.TokenEdit` | cif/store/sqlite/token.py:184-201 | `'token required for updating'` without a token; `'token not found'` iff no row has it; for a found token, a `TypeError` iff `groups` is a non-empty list, otherwise `True`; the table is unchanged |
| `Store.TokenStore.Check` | cif/store/sqlite/token.py:129-182 | result and new cache state are those of `Authorize`; the store invariant is kept |
| `Store.TokenStore.TokenRead` | cif/store/sqlite/token.py:129-154 | result and new cache are `Authorize` for `read`; `now <= cacheCheck` afterwards, reset to `now + delay` on a flush; a returned record is the token's own |
| `Store.TokenStore.TokenWrite` | cif/store/sqlite/token.py:156-182 | result and new cache are `Authorize` for `write`; `now <= cacheCheck` afterwards, reset to `now + delay` on a flush; a returned record is the token's own |
| `Store.TokenStore.TokenLastActivityAt` | cif/store/sqlite/token.py:203-225 | result, table and cache are those of `Touch`; no cache entry is added; the store invariant is kept |

## Left out

- The SQLAlchemy session, query objects, `commit` and the ORM mapping (lines 5-9, 21-51 beyond the plain columns) are replaced by the sequence `table`. Queries without `ORDER BY` are taken to return rows in table order.
- `_token_generate` is not part of this model. `TokensCreate` takes the new token string as a parameter and requires it to be non-empty and unused. The database-assigned `id` is a parameter too.
- `_as_dict` and `handle` are not part of this model. A cached record copies every column of the row. The model takes a NULL `last_activity_at` to be a missing key, because that is the case the `KeyError` branch of `token_last_activity_at` handles.
- Parsing with `arrow` (lines 71-72, 205) is left out. Times are integers, an `expires` in a create request is already parsed, and the timestamp argument of `token_last_activity_at` is an `Option<int>`, `None` when the caller gives none. The source reads the clock several times in one call; the model uses one `now` per call.
- The flags `read`, `write`, `admin` and `revoked` are booleans. A NULL flag is `false`, which every filter and every `is True` test treats the same way. `tokens_search` and the cache return such a flag as `false` where the source returns `None`. `TokenQueries.TokenAdmin` returns `false` where the source returns `None`.
- A `group` key present with the value `None` in a create request is not modelled; group names are strings.
- TokenCache.Touch: the branch without a timestamp (lines 226-229) is not modelled, because it cannot run: `arrow.get` (line 205) returns an `Arrow` object, which is always truthy, or raises. A call without a timestamp is modelled as one with the current time `now`, which is what `arrow.get(None)` gives before arrow 1.0; arrow 1.x raises `TypeError` there instead, which is not modelled.
- Store.TokenStore.TokensDelete: the model assumes the database deletes a token's groups with it (`ondelete='CASCADE'`, line 50). The bulk `Query.delete()` of line 123 skips the ORM cascade of line 40, and SQLite enforces foreign keys only when they are switched on, so without that the group rows stay behind; a later token given the same `id` would then inherit them.
- Decoding the token from bytes (line 206), logging, `PYVERSION`/`basestring`, `pprint` and the unused `VALID_FILTERS` are left out.
- Errors other than the `KeyError` of the literal-key test and the `TypeError` of `token_edit` are left out: database failures, parse errors and missing request keys.
- Returned records are values in the model. In the source, `token_read` and `token_write` return the cache's own dictionary (lines 137, 154, 164, 182), so a caller that changes it changes the cache, and `token_last_activity_at` (line 221) changes a record a caller already holds. This aliasing is not modelled.
- Concurrency is left out. The source holds no locks and the model is sequential.
- test/test_storage_rdflib.py and test/test_gatherer_geo.py exercise an indicator store and the geo gatherer, which are not part of this model.
