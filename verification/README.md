# Verified model of karbur

karbur is a Go toolkit for web applications on PostgreSQL. This project models its
stateful core in Dafny and proves what it promises:

- **Migrations** (`MigrationOrder`, `Migrations`, `MigrationDependencies`,
  `ConcurrentMigrations`, `Migrator`): groups of statements ordered by dependency and
  applied under an advisory lock. `Migrations` says what runs do one after the other;
  `ConcurrentMigrations` interleaves any number of migrators statement by statement and
  shows that every interleaving is such a serial history; `Migrator` is the program's own
  registration, ordering and loops.
- **Transactions** (`Errors`, `Transactions`): `Tx` with its retries, and any nesting of
  `EnsureTx`, `RequireTx` and `EnsureQueryer`. What a function does in a transaction is
  compared with its intent, evaluated as if transactions did not exist.
- **Tokens** (`TokenTable`, `Tokens`, `TokenHistory`, `TokenCleanup`): the token table,
  against a specification that only looks at the history of calls.
- **Sessions** (`Sessions`, `SessionCalls`, `SessionCoherence`, `SessionSoundness`,
  `AccountsMiddleware`): requests through the Session, Login, Logout and Delete
  middleware, with the write-back of session data. `SessionCalls` says in passwords,
  accounts and seconds what each call does, and that nobody is authenticated without one.
- **Content negotiation** (`AcceptHeader`, `AcceptWeights`, `WeightReading`,
  `AcceptGrammar`, `AcceptParser`, `Negotiation`, `HeaderNegotiation`), **escaping**
  (`Escaping`) and the **response budget** (`ByteLimit`). `Int64` is the wrap-around of
  Go's int, which the weights and the budget run into, and `Float64` the rounding of its
  float64.

Code that updates state is a class or a method with the loops of the original, proved to
compute a function; the theorems are about that function. `Wrappers` holds Option and
Result.

## Assumptions

- PostgreSQL: transactions are READ COMMITTED, `Commit` installs all pending writes or
  none, a closed or aborted transaction refuses statements, and all migrators use the same
  advisory lock ID.
- Generated token strings are new (`Fresh`, `FreshTokens`, `FreshLogins`, and the second
  condition of `Orderly`), and no account has the nil id (`Allowed`).
- Each call of the tokens package is one step at one time. Only `TokenCleanup` needs time
  not to go back, and `WriteBackIsCoherent` needs it between the request and the later
  one.
- A database call that fails leaves the tables as they were.
- Other code of the application mints no tokens of the session type (`Foreign`).
- Go's int has 64 bits, and float64 operations round to nearest, ties to even (section 4.3.1
  of IEEE 754-2019).
- JSON documents, account ids and passwords are opaque: a login or deletion carries the
  outcome of its password check.

## Where the code differs from its comments, or surprises

- `Tokens.New` returns the data it was given; when it replaces a single-use token the
  stored data stays the old one (`ReturnedDataIsStored`, with `StaleData` as an input).
- `Tokens.Rotate` has no expiry test, so it revives an expired token that was not cleaned
  up. That is the only way a cleanup can show (`InvisibleExactly`, with
  `RotateRevivesExpired` as an input). Rotate returns a new string even when it updated no
  row (`RotatedIsStored`, with `RotateOfSingleUse` as an input).
- `Tokens.Verify` consumes a token, or resets its idle period, before the validation
  function is asked, so a token it then refuses is consumed all the same: the new rows in
  its contract do not depend on that function.
- A login over an authenticated session deletes the old session first, so when the new
  token cannot be created the client is left without any (`FailedLoginLosesSession`). A
  handler that goes on after that in an anonymous context can log in again: the login
  succeeds, but its cookie names no row (`HollowLogin`).
- A handler that goes on after a login it made still has the account it had before, while
  the session written back is that of the login (`AfterTheCallOutOfStep`); if it then
  deletes its account, the other session's row stays behind (`OrphanedRow`).
- An error without an SQLSTATE is retried as a deadlock when the rollback after it fails with
  such a code, since the two errors are joined (`RollbackIsRetried`).
- A weight is accumulated in two ints, which wrap from 19 digits on, and divided in float64.
  Weights of at most 15 digits, and only these, all compare as they are written
  (`AllCompareExactly`): 1.0000000000000001 is read as 1, and of two offers the one with
  the higher weight written can lose (`SixteenDigitsAnswer`). From 19 digits on some come
  out negative and end their line (`AcceptedExactly`, with `TinyWeightIsTurnedAway` as an
  input and `NineteenTurnsAway` for all of that length), and from 64 digits on the divisor
  is 0, which makes infinities and NaNs (`NaNExactly`). With a NaN the answer depends on
  the order of the elements (`HeaderOrderMatters`).
- A weight over 1 is accepted: of at most 18 digits, exactly when it starts with 1 and its
  fraction is over 2^-53, which up to 15 digits is any but 0 (`QualityOverOne`).
- A type named with `q=0` is not excluded when a wildcard also matches it, unlike section
  12.5.1 of RFC 9110: specs of weight 0 are as good as absent (`ZeroWeightsAreIgnored`), and
  `RefusedIsChosen` and `SingleOffer` say when such a type is answered.
- `limitWrite` can exceed its budget only in a write whose int64 total wraps
  (`BudgetExactly`; `BudgetAlways` for a whole response). That write itself is never sliced
  out of bounds, but if it leaves more than the limit counted, the next write whose total
  does not wrap is, and panics (`InBoundsExactly`, with `WrapThenPanic` as an input). That
  input has a buffer of 2^63-1 bytes, which no platform allocates; with ordinary buffers
  the total can only wrap under a limit within one buffer of 2^63
  (`OrdinaryBuffersNeverWrap`).

## Model

| member | source | states |
|---|---|---|
| ConcurrentMigrations.ConcurrentIsSerial | pgdb/migrate/migrate.go:201-236 | for any number of migrators and every interleaving of their steps, the committed database is that of running the committed runs one after the other in commit order; each group's log is its indexes 0..version |
| ConcurrentMigrations.AppliedOnceInOrder | pgdb/migrate/migrate.go:215-234 | in every state of every interleaving two log entries of one group have increasing indexes: nothing is applied twice or out of order |
| ConcurrentMigrations.StepKeepsInv | pgdb/migrate/migrate.go:201-236 | every step of every migrator keeps the invariant: only the lock holder is past the lock, and what it sees is a serial run stopped at the same statement |
| ConcurrentMigrations.OneAtATime | pgdb/migrate/migrate.go:202-205 | the advisory lock admits one migrator at a time |
| ConcurrentMigrations.CommittedOnlyGrows | pgdb/migrate/migrate.go:215-237 | no interleaving lowers a version or takes a log entry back |
| ConcurrentMigrations.ConcurrentAppliesLongest | pgdb/migrate/migrate.go:215-234 | with lists that only grow at their end, what is committed of a group is the longest list any committed run registered, and the version is its length less one |
| ConcurrentMigrations.DependenciesBeforeStatement | pgdb/migrate/migrate.go:215-234 | when a statement executes, everything its group depends on, directly or not, is visible to its transaction: something at every registered index and, if the lists registered for the dependency only grew at their end, each registered statement at its own index |
| ConcurrentMigrations.CommittedInDependencyOrder | pgdb/migrate/migrate.go:215-234 | each committed statement follows, in the log, everything its group depends on in the run that applied it, in the same sense |
| ConcurrentMigrations.NeverStuck | pgdb/migrate/migrate.go:201-236 | in every reachable state whose lock is held, a step other than failing is enabled for the holder |
| ConcurrentMigrations.BegunCanCommit | pgdb/migrate/migrate.go:201-236 | in every reachable state every migrator that has begun has a continuation without failures that commits its run, after the run of another lock holder if there is one |
| Migrations.SerialExact | pgdb/migrate/migrate.go:215-234 | after any successful runs, with any lists, a group's log entries are exactly 0..version and one more run only appends what is missing |
| Migrations.IndexCountsEarlier | pgdb/migrate/migrate.go:221-232 | an entry's index is the number of its group's entries before it |
| Migrations.RunGroupExact | pgdb/migrate/migrate.go:216-233 | one pass of the loop extends the applied statements of its group to the registered list and leaves the other groups alone |
| Migrations.VersionIsMaximum | pgdb/migrate/migrate.go:223-233 | the version is that of the longest list ever registered, whether or not the lists are prefixes of each other |
| Migrations.AppliedIsLongest | pgdb/migrate/migrate.go:215-234 | with prefix-comparable lists the applied statements are the longest list |
| Migrations.IncrementalIsOneShot | pgdb/migrate/migrate.go:215-234 | a history of incremental runs leaves a group as one run of its longest list would |
| Migrations.RerunIsNoOp | pgdb/migrate/migrate.go:223-233 | a rerun, or an older registration, changes nothing |
| MigrationDependencies.DependenciesReady | pgdb/migrate/migrate.go:215-234 | when the loop reaches a group its transitive dependencies are applied, statement by statement if their lists only grew, whichever order was chosen |
| MigrationDependencies.DependencyTextExactly | pgdb/migrate/migrate.go:215-234 | the statements registered for a dependency are the ones applied exactly when they and those applied before the run are prefixes of each other |
| MigrationDependencies.DependenciesFirstInLog | pgdb/migrate/migrate.go:215-234 | over any history each statement follows, in the log, what its group depends on in its run |
| MigrationOrder.Toposort | pgdb/migrate/migrate.go:239-260 | the sort succeeds exactly when the graph is acyclic, with a linear extension of it |
| MigrationOrder.ExtensionIsAcyclic | pgdb/migrate/migrate.go:257-260 | a graph with a linear extension has no cycle |
| MigrationOrder.StuckIsCyclic | pgdb/migrate/migrate.go:257-260 | when no remaining group is ready, the remaining groups contain a cycle |
| MigratorRunner.Migrator.Register | pgdb/migrate/migrate.go:121-148 | a registered group is refused and nothing changes; otherwise its statements and the set of its dependencies are recorded |
| MigratorRunner.Migrator.OrderMigrationGroups | pgdb/migrate/migrate.go:239-274 | succeeds exactly when the graph is acyclic and every dependency is registered, with a linear extension; a cycle is reported before missing groups, which are reported exactly |
| MigratorRunner.Migrator.MigrateGroup | pgdb/migrate/migrate.go:215-234 | a pass of the loop is the serial RunGroup, and fails with the first error among exactly the calls it has to make |
| MigratorRunner.Migrator.MigrateGroups | pgdb/migrate/migrate.go:201-236 | what runs inside the transaction is the serial run of the order, and fails with the first error among its calls |
| MigratorRunner.Migrator.Migrate | pgdb/migrate/migrate.go:180-237 | installs exactly one serial run in a dependency order and returns nil, or changes nothing and returns an error: a cycle, missing groups, the error of the last attempt or of the done context |
| MigratorRunner.Migrator.Tx | pgdb/database.go:132-165 | the attempts of Migrate: retried exactly on deadlock SQLSTATEs when the context asks for it, and all but the last leave nothing |
| MigratorRunner.Migrator.Attempt | pgdb/database.go:181-194 | one attempt fails with the first error of BeginTx, the calls of the run and Commit, or else installs the run |
| MigratorRunner.MigrateIsBounded | pgdb/database.go:149-164 | at most 4 attempts, one without the option; Migrate succeeds exactly when one of the first 4 attempts meets no error and all before it are retried |
| MigratorRunner.BodyCallsExactly | pgdb/migrate/migrate.go:201-236 | the calls inside the transaction: two, then one version read a group, one for each entry added to the log, and one for each group of which statements were missing |
| MigratorRunner.TrialErrorExactly | pgdb/database.go:181-194 | an attempt succeeds exactly when the server answers none of its calls with an error; otherwise its error is that of the first one, joined with the rollback error when it is inside the transaction |
| MigratorRunner.MigrationIsRetried | pgdb/database.go:149-171 | whichever call fails first, with SQLSTATE c, the attempt is made again exactly when c is 40001 or 40P01, the option is set, fewer than 4 attempts were made and the context is not done; a done context gives its own error |
| MigratorRunner.ApplyMigrations | pgdb/migrate/migrate.go:339-347 | appends the statements from an index on in order, up to the first error |
| Transactions.AllOrNothing | pgdb/database.go:181-251 | for any tree of nested EnsureTx, RequireTx and EnsureQueryer calls, with errors swallowed or passed on at will: nil exactly when nothing doomed the transaction, and then all writes in order are installed, otherwise none |
| Transactions.RunRealisesIntent | pgdb/database.go:196-251 | the body, run against the stateful transaction, leaves what its transaction-free intent says: all writes pending and exactly the error intended, or a dead transaction exactly when an inner EnsureTx or RequireTx function failed or the server aborted |
| Transactions.DeadStaysDead | pgdb/database.go:208-211 | after a rollback or an abort nothing a body does revives the transaction |
| Transactions.TxInstallsOnce | pgdb/database.go:149-164 | nil exactly when the last attempt committed; only its writes are installed and failed attempts leave none |
| Transactions.RetryIsBounded | pgdb/database.go:86-92 | at most 4 attempts, 1 without RetryDeadlock, and under 500ms of backoff in all |
| Transactions.DeadlockIsRetried | pgdb/database.go:149-194 | when the server answers with SQLSTATE c to BeginTx, to the commit, or, refusing it or aborting the transaction, to the first statement that fails, whose error is passed on through any nested calls, the SQLSTATE of the attempt is c, and it is made again exactly when c is 40001 or 40P01, RetryDeadlock is set, fewer than 4 attempts were made and the context is not done |
| Transactions.PassesOnError | pgdb/database.go:185-251 | however deep in nested calls the first failure is, when all functions around it pass its error on, the body returns an error that is it and has its SQLSTATE, or that of the one rollback that was made if it has none |
| Transactions.AttemptState | pgdb/database.go:181-194 | the SQLSTATE of the error of such an attempt |
| Transactions.AttemptError | pgdb/database.go:181-194 | the error of an attempt: of BeginTx, the intended one joined with that of the rollback, of the commit, or, when the body returns nil over a dead transaction, one that says so |
| Transactions.DeadAnswers | pgdb/database.go:48-57 | a transaction aborted by the server answers statements with 25P02 and a commit with an error; a closed one refuses statements, commits and rollbacks |
| Transactions.RollbackIsRetried | pgdb/database.go:150-190 | a body error without SQLSTATE is retried exactly when the rollback fails with 40001 or 40P01, under the same conditions |
| Transactions.DeadlockGivenUp | pgdb/database.go:153-163 | a deadlock that is not tried again is answered with its own error, or with that of the context when attempts were left |
| Transactions.BackoffSchedule | pgdb/database.go:173-179 | 50, 100 and 200 milliseconds before the second, third and fourth attempt, at most 500, and what jitter adds |
| Transactions.TotalSchedule | pgdb/database.go:149-164 | a call waits 50, 150 or 350 milliseconds in all, and what jitter adds |
| Transactions.Tx | pgdb/database.go:132-165 | the loop stops after the first attempt that is not retried: no deadlock SQLSTATE, no RetryDeadlock, 4 attempts made, or a done context |
| Transactions.DoTx | pgdb/database.go:181-194 | one attempt installs the writes and returns the error of its outcome |
| Transactions.EnsureTx | pgdb/database.go:203-213 | joins the transaction of the context, rolling it back on error, or is Tx when there is none |
| Transactions.RequireTx | pgdb/database.go:241-251 | ErrNoTx without a transaction, otherwise as EnsureTx inside one |
| Transactions.Run | pgdb/database.go:203-251 | the nested calls of a body act on the one transaction of the context |
| Transactions.Txer.Commit | pgdb/database.go:48-57 | installs the pending writes or nothing, and closes the transaction |
| Transactions.Txer.Rollback | pgdb/database.go:48-57 | closes the transaction; an error on a closed one |
| Transactions.Txer.Exec | pgdb/database.go:48-57 | a closed or aborted transaction refuses statements; in an open one a write becomes pending or its error is handed on, the transaction staying usable or not as the server says |
| Escaping.QuoteEscExact | pgdb/database.go:257-259 | a text lexes as the literal of s followed by rest exactly when it is QuoteEsc(s) + rest and rest does not start with a quote |
| Escaping.QuoteEscInjective | pgdb/database.go:257-259 | different strings have different literals |
| Escaping.LikeEscParses | pgdb/database.go:261-273 | before any pattern the escape contributes only literal items, and leaves no dangling escape |
| Escaping.LikeEscStaysLiteral | pgdb/database.go:261-273 | between any two patterns the escape stands for its string and nothing else |
| Escaping.LikeEscEquals | pgdb/database.go:261-273 | t LIKE LikeEsc(s) exactly when t = s |
| Escaping.LikeEscPrefix | pgdb/database.go:261-273 | t LIKE LikeEsc(s)% exactly when s is a prefix of t |
| Escaping.LikeEscContains | pgdb/database.go:261-273 | t LIKE %LikeEsc(s)% exactly when s occurs in t |
| TokenHistory.VerifyMeetsHistory | tokens/tokens.go:160-209 | in every serial run with fresh token strings Verify accepts a token exactly when the history of calls alone says so |
| TokenHistory.AcceptedExactly | tokens/tokens.go:104-175 | a token that a New or a Rotate issued is accepted exactly while it is in circulation, for the whole seconds of AbsoluteExpiry since the call, and, being a multi-use one with a positive IdleExpiry, for the whole seconds of that since its last use |
| TokenHistory.IssuesMeans | tokens/tokens.go:80-299 | a New issues its token exactly when token, type and idle seconds fit their columns, and a Rotate when moreover the token it names is a multi-use one in circulation |
| TokenHistory.ReplacementMeans | tokens/tokens.go:78-99 | a New ends exactly the earlier single-use token of its type and ref_id, if it is for a single-use one and succeeds |
| TokenHistory.TableHoldsData | tokens/tokens.go:96-299 | the data stored with a token is that of the latest UpdateData; before one, that of the single-use token it replaced, what its call asked for, or, for a Rotate that asked for none, that of the token it renewed |
| TokenHistory.TableAgrees | tokens/tokens.go:80-353 | the table holds exactly the tokens the history has in circulation, each with the row its issue and last use give it |
| TokenHistory.LifeMeans | tokens/tokens.go:80-353 | a token is in circulation exactly when a call issued it and no later call ended it |
| TokenHistory.GoneForGood | tokens/tokens.go:304-333 | a token that left circulation never returns |
| TokenHistory.SingleUseOnce | tokens/tokens.go:186-190 | a single-use token is accepted at most once in a serial run |
| TokenHistory.SingleUseSuperseded | tokens/tokens.go:78-79 | a single-use token is never accepted after a newer one was issued for its type and ref_id |
| TokenTable.ApplyKeepsConsistent | tokens/migrations/004_index_tokens_single_use.sql.tpl:1 | every call keeps one single-use row per type and ref_id, no idle on single-use rows, and idle null exactly when idle_duration is |
| TokenTable.NewStores | tokens/tokens.go:96-99 | the row New leaves is as asked, except that replacing a single-use token keeps the old data |
| TokenTable.ReturnedDataIsStored | tokens/tokens.go:96-126 | the data New returns is the data stored exactly when nothing was replaced or the replaced row held the same data |
| TokenTable.StaleData | tokens/tokens.go:96-126 | two single-use tokens for one type and ref_id: the second is stored with the data of the first |
| TokenTable.RotatedIsStored | tokens/tokens.go:257-300 | the fresh string Rotate returns names a row exactly when the update matched a row and violated no constraint |
| TokenTable.RotateOfSingleUse | tokens/tokens.go:268-270 | rotating a single-use token changes nothing, and the string is no token |
| TokenCleanup.InvisibleExactly | tokens/migrations/005_proc_tokens_cleanup.sql.tpl:1-9 | in the course of a run, Cleanup calls put in anywhere are invisible to every Verify one may ask exactly when no Rotate of the run renews a row that a cleanup could have taken and makes it usable again |
| TokenCleanup.CleanupIsInvisible | tokens/migrations/005_proc_tokens_cleanup.sql.tpl:1-9 | two runs without such a Rotate that differ only in their Cleanup calls give the same Verify outcomes |
| TokenCleanup.CleanedAnswersAgree | tokens/migrations/005_proc_tokens_cleanup.sql.tpl:4-7 | a cleaned table that lacks only dead rows answers like the full one for ever after |
| TokenCleanup.RevivalShows | tokens/tokens.go:257-300 | a run with such a Rotate has a question that a Cleanup changes the answer to |
| TokenCleanup.CleanupBeforeRotate | tokens/tokens.go:257-300 | a Cleanup just before a Rotate changes the answer of a later Verify exactly when the Rotate succeeds on an expired row and the Verify asks for the new token while that is in force |
| TokenCleanup.RotateRevivesExpired | tokens/tokens.go:257-300 | an input of that kind |
| TokensManager.Tokens.New | tokens/tokens.go:80-127 | the insert, the single-use replacement and the constraint errors; the data returned is the data stored exactly when nothing was replaced or it was the same |
| TokensManager.Tokens.Verify | tokens/tokens.go:160-209 | ErrInvalid for an unknown or expired token; a loaded one is consumed or its idle reset before the validation function decides |
| TokensManager.Tokens.UpdateData | tokens/tokens.go:235-248 | replaces the data of that token only |
| TokensManager.Tokens.Rotate | tokens/tokens.go:257-300 | renames a multi-use row and resets its ref_id and expiries; the fresh string returned names a row exactly when the old one was a multi-use token |
| TokensManager.Tokens.Delete | tokens/tokens.go:304-315 | removes that token only |
| TokensManager.Tokens.DeleteByTypeRef | tokens/tokens.go:321-333 | removes the tokens of that type and ref_id only |
| TokensManager.Tokens.ResetIdle | tokens/tokens.go:339-353 | restarts the idle period of a multi-use token |
| TokensManager.Tokens.Cleanup | tokens/tokens.go:359-365 | removes the rows whose expiry has passed |
| SessionCoherence.WriteBackIsCoherent | accounts/acctmw/session.go:76-100 | after any request, whatever calls its handler made, nested or one after the other, and whichever of its database calls failed, if Session could load and save and the client's cookie verifies later, it loads exactly the data of the context's session, for the account that session belongs to |
| SessionCoherence.ChangesAreSaved | accounts/acctmw/session.go:85-100 | a session that the handler changed and that still has its row is saved in it exactly when the save goes through: the row of the client cookie holds the new data and is otherwise as it was, and so are all others |
| SessionCoherence.AnonymousIsSaved | accounts/acctmw/session.go:85-134 | a changed session without a row gets one, and the cookie: anonymous, for 12 hours, half an hour of them idle |
| SessionCoherence.ReplacedDataIsSaved | accounts/acctmw/session.go:82-100 | the data a handler leaves last is in the row of the client cookie |
| SessionCoherence.FailedLoadKeepsSession | accounts/acctmw/session.go:29-68 | when Session cannot load, no handler runs, no cookie is set and no multi-use row changes but for its idle time |
| SessionCoherence.CleanAnonymousLeavesNoRow | accounts/acctmw/session.go:85-100 | a request with nested calls that ends with a clean anonymous session leaves no new row |
| SessionCoherence.OrphanedRow | accounts/acctmw/delete.go:58-76 | one whose calls come one after the other can: a login as another account and then the deletion of the first leave the row of the second |
| SessionCoherence.NestedStaysInStep | accounts/acctmw/login.go:121-137 | Session and every call hand their inner handler a context whose account is the one its session belongs to |
| SessionCoherence.AfterTheCallOutOfStep | accounts/acctmw/login.go:121-138 | a handler that goes on after a login still has its old account, while the session is that of the login; the two agree only if the accounts do |
| SessionCoherence.HandleIsCoherent | accounts/acctmw/login.go:69-128 | any tree of replace, login, logout and delete calls, with any failures, keeps cell, row and cookie together |
| SessionSoundness.AuthenticatedExactly | accounts/acctmw/session.go:24-80 | after any run Session puts account A in the context exactly when A exists, a login as A minted the cookie, its absolute expiry has not passed, none of the events that revoke it happened since (logout, a login over it, a failed one, deletion of A, the sweep for a missing A, and Delete, DeleteByTypeRef or Cleanup by other code), and the two queries go through; the login must not have renewed a session that a failed login had deleted |
| SessionCalls.AuthenticationNeedsPassword | accounts/acctmw/login.go:50-165 | after any run, whoever Session puts in the context has, in some request less than 12 hours ago, or 30 days with remember me where that is allowed, logged in to the cookie with the password of that account, which existed |
| SessionCalls.RunIsAskedFor | accounts/acctmw/login.go:34-165 | every login, logout, deletion and sweep on record is of a request whose handler asked for it, with the right password where one is needed |
| SessionCalls.RecordsAreAskedFor | accounts/acctmw/login.go:34-139 | any tree of calls records no more than its calls ask for, and the accounts after it are those before it but for the recorded deletions |
| SessionCalls.AccountsExactly | accounts/acctmw/delete.go:80-98 | after any run an account exists exactly when it was added and since then neither dropped nor deleted by a request |
| SessionCalls.DeletionIsAskedFor | accounts/acctmw/delete.go:46-98 | a request deletes an account only for a call with the password, in a context that Session or a login of the same handler gave that account |
| SessionCalls.LoginSucceedsExactly | accounts/acctmw/login.go:46-165 | a login succeeds exactly with the password of an account that exists, when it may be remembered if it asks to be and no database call it makes fails; a failed one leaves all but the session in the context alone |
| SessionCalls.LoginLogsIn | accounts/acctmw/login.go:66-137 | a successful one puts the account in the context and sets the cookie to a session of it for 12 hours or 30 days, with the data of the anonymous session before or none; the session before is gone and no other row changed |
| SessionCalls.LogoutExactly | accounts/acctmw/logout.go:15-68 | a logout succeeds exactly in an authenticated context with a saved session, and takes account, session, row and cookie away |
| SessionCalls.DeleteExactly | accounts/acctmw/delete.go:34-98 | a deletion succeeds exactly with the password of the account in the context; that account and all its sessions go, no other account or row, and the session and the cookie are cleared |
| SessionCalls.LoadExactly | accounts/acctmw/session.go:24-80 | loading a session that has not expired stops exactly when a database call it makes fails, and puts the session and its account in the context |
| SessionCalls.MissingAccountIsSwept | accounts/acctmw/session.go:60-70 | a session of an account that does not exist loads as none, and exactly the sessions of that account go |
| SessionCalls.OtherCookieLoadsNone | accounts/acctmw/session.go:24-50 | any other cookie, or none, loads as an anonymous session that is not saved |
| SessionSoundness.HollowLogin | accounts/acctmw/login.go:74-119 | such a login can happen: it succeeds and sets a cookie that names no row |
| SessionSoundness.HandleIsSound | accounts/acctmw/login.go:69-128 | any tree of calls keeps the authenticated rows exactly those of the unrevoked logins |
| SessionSoundness.RunIsSound | accounts/acctmw/session.go:19-102 | over any serial run of requests and other token calls, the authenticated session rows are exactly those of the unrevoked logins |
| SessionSoundness.RequestIsSound | accounts/acctmw/session.go:19-102 | one request, with any database faults, keeps that |
| SessionSoundness.CallIsSound | tokens/tokens.go:80-353 | token calls of other code, which mint no session tokens, keep that |
| SessionSoundness.CallRevokes | tokens/tokens.go:304-365 | a token call of other code ends exactly the sessions its event is said to revoke |
| AccountsMiddleware.Accounts.Session | accounts/acctmw/session.go:19-102 | load, handler and write-back in order, with the error exits of each database call |
| AccountsMiddleware.Accounts.LoadSession | accounts/acctmw/session.go:20-79 | the cookie's session, an anonymous one, none, or an error; a missing account has all its sessions deleted |
| AccountsMiddleware.Accounts.GenerateNewAnonymousSession | accounts/acctmw/session.go:104-134 | creates the row and sets the cookie, or sets none on error |
| AccountsMiddleware.Accounts.Login | accounts/acctmw/login.go:34-139 | deletes and creates, rotates, or creates, then resets the context and sets the cookie; an error after the deletion leaves no session |
| Sessions.FailedLoginLosesSession | accounts/acctmw/login.go:74-107 | a login that fails after its checks costs an authenticated session its row, unless the deletion itself failed |
| AccountsMiddleware.AuthenticatedSessionDurations | accounts/acctmw/login.go:167-175 | 12 hours and no max age, or 30 days with remember me |
| AccountsMiddleware.Accounts.Logout | accounts/acctmw/logout.go:15-68 | refused without a saved authenticated session; otherwise token, context and cookie are cleared |
| AccountsMiddleware.Accounts.DeleteAccount | accounts/acctmw/delete.go:34-99 | removes the account with all its sessions and clears the cookie; the account stays in the context |
| AcceptGrammar.ParseUndoesPrint | server/middleware/gddo_header.go:66-147 | a line printed from any elements that are accepted, with any inner spaces and any number of digits, parses to their values and to their weights as int and float64 arithmetic reads them |
| AcceptGrammar.AcceptedExactlyWellFormed | server/middleware/gddo_header.go:78-86 | a printed element, whatever follows it, is turned away exactly when its weight comes out negative |
| AcceptGrammar.TinyWeightIsTurnedAway | server/middleware/gddo_header.go:80-86 | 0.0000000000000000001 is such a weight |
| AcceptGrammar.NineteenTurnsAway | server/middleware/gddo_header.go:78-91 | a line of one element with 19 digits yields nothing exactly for these digits: 1 to 2^63-1 after 0, and 8446744073709552129 to 2^63-1 after 1 |
| WeightReading.AcceptedExactly | server/middleware/gddo_header.go:135-146 | no weight of k digits is turned away exactly when k is at most 18, or is 63 in a weight that starts with 1 |
| WeightReading.AllCompareExactly | server/middleware/gddo_header.go:135-146 | all weights of up to k digits compare as they are written exactly when k is at most 15 |
| WeightReading.ShortCompare | server/middleware/gddo_header.go:135-146 | two weights of at most 15 digits compare as they are written |
| WeightReading.RatioSign | server/middleware/gddo_header.go:146 | a weight that starts with 0 comes out negative exactly when its two ints have opposite signs |
| WeightReading.NineteenDigits | server/middleware/gddo_header.go:135-146 | which weights of 19 digits come out negative, after rounding |
| AcceptWeights.NaNExactly | server/middleware/gddo_header.go:135-146 | a weight is a NaN exactly when it has at least 64 digits and they write a multiple of 2^64 |
| AcceptWeights.DivisorExactly | server/middleware/gddo_header.go:137-144 | the divisor is exact up to 18 digits and only then |
| AcceptWeights.DivisorVanishes | server/middleware/gddo_header.go:137-144 | the divisor is 0 exactly from 64 digits on |
| WeightReading.QualityOverOne | server/middleware/gddo_header.go:119-147 | a weight of at most 18 digits is over 1 exactly when it starts with 1 and its fraction is over 2^-53; of at most 15 digits, exactly when it starts with 1 and has a digit other than 0, and then it is below 2 |
| AcceptWeights.HeaderWeights | server/middleware/gddo_header.go:82-84 | no parsed element has a negative weight |
| Float64.RoundMonotone | server/middleware/gddo_header.go:146 | rounding to float64 keeps the order |
| Float64.RoundExact | server/middleware/gddo_header.go:146 | a number of at most 53 bits is not changed by it |
| Float64.RoundIs | server/middleware/gddo_header.go:146 | it goes to the nearest float64 of the binade, a tie to the even one |
| Float64.RoundClose | server/middleware/gddo_header.go:146 | it is off by at most half the spacing of the floats there |
| AcceptGrammar.LineOfParts | server/middleware/gddo_header.go:69-93 | printed elements are read back and then what follows their last comma is parsed |
| AcceptGrammar.MalformedEndsLine | server/middleware/gddo_header.go:69-94 | a malformed element ends its own line, keeps what came before it and leaves the other lines alone |
| AcceptGrammar.LineIsPrinted | server/middleware/gddo_header.go:69-93 | every line is such a print and a last piece: the elements before each comma are read, and of the last piece its first element alone, if it has one |
| AcceptGrammar.ElementIsPrinted | server/middleware/gddo_header.go:108-147 | every element accepted is the print of one with that value and weight, and it ends where the parser stopped |
| AcceptGrammar.ElementExactly | server/middleware/gddo_header.go:72-147 | an element is read from an input exactly when the input is the print of one whose weight does not come out negative and a rest that cannot belong to it; no other input yields one |
| AcceptGrammar.ParameterEndsLine | server/middleware/gddo_header.go:77-82 | a value with a parameter that is not q= and a 0 or 1 yields nothing and ends its line |
| AcceptGrammar.OctetClasses | server/middleware/gddo_header.go:27-57 | the octets of a value are letters, digits, /, and !#$%&'*+-.^_`~ and the vertical bar; spaces are SP, HT, CR and LF |
| HeaderNegotiation.ParameterIsNotNegotiated | server/middleware/gddo_header.go:77-94 | such a line adds nothing to a header, and alone it leaves the default |
| HeaderNegotiation.LevelIsNotNegotiated | server/middleware/gddo_header.go:79-81 | text/html;level=1 is such a line: text/html is not answered for it |
| AcceptParser.InitOctetTypes | server/middleware/gddo_header.go:27-57 | the table classifies each of the 256 octets as token or space as its comment defines them |
| AcceptParser.SkipSpaces | server/middleware/gddo_header.go:98-106 | drops the leading spaces |
| AcceptParser.ExpectTokenSlash | server/middleware/gddo_header.go:108-117 | splits off the longest run of token or slash octets |
| AcceptParser.ExpectQuality | server/middleware/gddo_header.go:119-147 | the weight as the wrapping ints and the rounding float64 operations make it, NaN and infinities included, or -1 when there is none |
| AcceptParser.ParseLine | server/middleware/gddo_header.go:69-93 | the inner loop reads one line; each round consumes input |
| AcceptParser.ParseAccept | server/middleware/gddo_header.go:66-96 | the elements of all lines in order, each line read apart |
| Negotiation.NegotiateContentType | server/middleware/gddo_negotiate.go:21-57 | the first offer that attains the best weight and then specificity over all matching pairs of non-zero weight, or the default when none matches, as long as no weight that matches is a NaN; in any case what the fold of the switch over the pairs answers |
| Negotiation.ChooseIsAnswer | server/middleware/gddo_negotiate.go:25-56 | without a NaN the fold of the switch finds that answer |
| Negotiation.OrderMattersWithNaN | server/middleware/gddo_negotiate.go:28-53 | with one, the order of the specs decides |
| Negotiation.AnswerIsUnique | server/middleware/gddo_negotiate.go:25-56 | the answer depends only on which specs there are, so permuting or repeating them changes nothing |
| Negotiation.IsBetterMatch | server/middleware/gddo_negotiate.go:28-53 | a match replaces the best exactly when it is strictly better |
| Negotiation.MatchesMeans | server/middleware/gddo_negotiate.go:29-53 | a spec of non-zero weight matches an offer exactly when it is */*, names the offer, or is t/* for an offer that starts with t/ |
| Negotiation.ScoreMeans | server/middleware/gddo_negotiate.go:28-53 | of two specs the better has the higher weight or, for equal ones, is no */* while the other is, or no type/* while the other has a wildcard |
| Negotiation.ZeroWeightsAreIgnored | server/middleware/gddo_negotiate.go:29-30 | for any specs and offers, leaving out every spec of weight 0 changes no answer |
| Negotiation.RefusedIsChosen | server/middleware/gddo_negotiate.go:28-53 | an offer named with weight 0 is chosen exactly when a spec of non-zero weight matches it and no other offer has a better match, nor an earlier one an equal match |
| Negotiation.SingleOffer | server/middleware/gddo_negotiate.go:28-53 | a single offer is chosen exactly when some spec of non-zero weight matches it |
| HeaderNegotiation.NegotiatesAsWritten | server/middleware/gddo_negotiate.go:21-57 | from any header whose weights have at most 15 digits the answer is the first offer with the best weight as written, then the most specific |
| HeaderNegotiation.SameOrderSameChoice | server/middleware/gddo_negotiate.go:28-53 | only the order of the weights among each other and 0 decides |
| HeaderNegotiation.SixteenDigitsAnswer | server/middleware/gddo_negotiate.go:28-53 | with 16 digits no longer: a is answered for a and b;q=1.0000000000000001 |
| HeaderNegotiation.HeaderOrderMatters | server/middleware/gddo_negotiate.go:28-53 | a header whose weight of 64 zeros makes two orders of the same elements answer differently |
| ByteLimit.LimitedWriter.Write | server/middleware/middleware.go:69-91 | forwards what the int64 total leaves, counts what was taken, and reports too many bytes or the underlying error; it panics exactly when more than the limit was counted before and the total does not wrap |
| ByteLimit.ServeHTTP | server/middleware/middleware.go:52-66 | a response's writes, one after the other, leave taken what the fold of single writes gives, or panic |
| ByteLimit.LimitResponseBodyBytes | server/middleware/middleware.go:52-65 | with a limit of 0 or less every write goes through unlimited; otherwise as ServeHTTP |
| ByteLimit.InBoundsExactly | server/middleware/middleware.go:75-81 | the re-slice is in bounds exactly when at most the limit was counted before or the total wraps |
| ByteLimit.HandedOnFits | server/middleware/middleware.go:74-82 | within the budget, a write hands on what still fits exactly when its total does not wrap |
| ByteLimit.BudgetExactly | server/middleware/middleware.go:74-90 | a write from within the budget stays within it exactly when its total does not wrap or the underlying writer takes no more than was left |
| ByteLimit.BudgetAlways | server/middleware/middleware.go:69-91 | a whole response keeps to its budget without a panic exactly when no write both wraps its total and is taken beyond what was left |
| ByteLimit.WithinBudget | server/middleware/middleware.go:69-91 | over any writes and any underlying writer, without a wrapped total nothing panics and no more than limit bytes are taken |
| ByteLimit.OrdinaryBuffersNeverWrap | server/middleware/middleware.go:74-75 | with buffers of at most m bytes and a limit at least m below 2^63 no total wraps |
| ByteLimit.TakenIsPrefix | server/middleware/middleware.go:69-91 | when the underlying writer takes everything, it gets exactly the first limit bytes of the response |
| ByteLimit.WrapThenPanic | server/middleware/middleware.go:74-82 | a wrapped total and then a short write over the limit make the next write panic |

## Left out

- Float64.RoundExact: overflow and the sign of zero are not modelled; no number here comes near the one, and no comparison tells the other.
- TokenCleanup.CleanupIsInvisible: ignores the data column, since a single-use token replaced after a cleanup stores the new data and without it the old.
- MigrationOrder.Toposort: the third-party sorting package is not part of this model; the order among ready groups is left open, as map iteration leaves it open in the program.
- MigratorRunner.Migrator.OrderMigrationGroups: reports the missing groups as a set; their sorting in the error text is not modelled.
- TokensManager.Tokens.Verify: the SELECT and the DELETE are one step, so "accepted at most once" speaks of serial runs only.
- AccountsMiddleware.Accounts.Session: requests are served one at a time.
- MigratorRunner.Migrator.Migrate: works against a database that nobody else changes between its attempts, and leaves the text wrapped around a statement's error out; other migrators are the matter of ConcurrentMigrations, where a retry is an abort and a new begin.
- Session and login input decoding, registration, authorization, cookie attributes other than value and max age, password hashing and random generation.
- `EnsureQueryer` without a transaction in the context, a `Tx` begun inside another, reads inside a transaction, and commits whose outcome is unknown.
- Templates, the embedded file systems and `Export` of the migrator: each group is its list of statements, in name order.
- The driver adapters, mock and test databases, the HTTP server, parameter decoding, web pages and the other middleware.
- Group membership, email lookup and the other columns of accounts: an account is its id.
- Length limits of group names and the upper bounds of timestamps.
