# Orbit Messenger message store, modelled in Dafny

This project models the message store of the Orbit Messenger server
(`go/db/messages.go`). The store appends room messages and direct messages
to the `messages` table. It lists the newest messages of a chatroom or of a
pair of users, newest first and up to a limit. It lists only the messages
newer than a cursor id, for incremental sync. It also counts a chatroom's
messages, finds the author of a message, and deletes a message by id.

The database is replaced by an in-memory table. The `DatabaseConnection`
class holds the rows in insertion order (`rows: seq<Row>`) and the next
value of the id column's `DEFAULT` sequence (`nextId`). Its invariant is
that ids are positive, strictly increasing and below `nextId`.

- `sql.dfy`, module `MessageSql`, holds the SQL side as pure functions:
  - the two read views (`Project`);
  - the four WHERE clauses, written exactly as the statements write them
    (`Where`, `Holds`);
  - `ORDER BY id DESC` (`Scan`, which walks the table from its newest row);
  - `LIMIT` (`Take`, `Select`);
  - `count(id)` (`CountWhere`), the author join (`AuthorOf`) and
    `DELETE ... WHERE id` (`RemoveId`).

  It also holds the lemmas about these functions: order, "the n newest",
  pair symmetry, cursor sync, and what a delete does.
- `store.dfy`, module `MessageStore`, holds the Go methods on the class.
  The methods that write have `modifies this` and state the whole new
  table. Each listing method runs one shared loop, `Fetch`. Each turn of
  that loop takes the next row in descending id order, keeps it if the
  view and the clause keep it, and appends it. This mirrors the
  `for rows.Next()` loops. `Fetch` is proved to return `Deliver(Select(...))`.
- `scenarios.dfy` holds two worked listing examples on literal tables, and
  a client that drives the methods.

Things outside the store are given to it as parameters:
- `Directory` stands for the identity lookups. `GetUserId` gives an id and
  an error flag, and an unknown name gives id 0 with an error.
  `GetIdFromChatroomName` gives the sentinel 0 for an unknown chatroom. The
  id-to-name maps stand for the users and chatrooms tables that the views
  join.
- Database failures are flags. For a write, `execFails` says the INSERT or
  DELETE was refused. For a read, a `Fault` says where it failed: the query
  is refused, the k-th row fails to decode, or the row stream ends after k
  rows.

Behaviour of the code worth noting:
- **Partial reads.** When decoding a row fails, the read methods return the
  rows gathered so far together with the error (lines 74-76, 97-99,
  118-120, 137-139). The result is not all-or-nothing.
- **Early end of the stream.** The code never checks `rows.Err()`. A stream
  that ends early therefore gives a truncated batch with no error
  (`Fault.StreamEndsAt`).
- **Direct-message guard.** `AddDirectMessage` assigns `err` twice (lines
  50-51), so the guard at line 53 tests the sender's id and the
  *receiver's* lookup error. The sender's own lookup error is never tested.
  A receiver lookup error rejects the message.
- **Unknown chatroom.** Both appends store the sentinel chatroom id 0 when
  the name is unknown (lines 39, 52). `UnknownChatroomHidden` shows that
  such a row appears in no listing and no count, as long as no chatroom has
  id 0.

## Model

| member | source | states |
|---|---|---|
| `MessageSql.Project` | go/db/messages.go:73 | a view row has the table row's id and text; a room-view row has no receiver and is read back with an empty receiver name |
| `MessageSql.Since` | go/db/messages.go:14-16 | the cursor clause holds exactly when the id is past the cursor and the matching "all" clause holds; the cursor test repeated in each disjunct bounds the whole OR |
| `MessageSql.Scan` | go/db/messages.go:13-16 | a listing has no more messages than the table has rows, and every message in it satisfies the WHERE clause |
| `MessageSql.Holds` | go/db/messages.go:13-16 | defines the four WHERE clauses with AND binding tighter than OR: a room clause keeps only that chatroom, a cursor clause only ids past the cursor in either disjunct, a pair clause only the two given (sender, receiver) pairs |
| `MessageSql.Select` | go/db/messages.go:13-16 | defines a whole listing statement as the newest-first walk cut to LIMIT: at most `limit` messages, no more than the table has rows, each satisfying the clause |
| `MessageSql.Take` | go/db/messages.go:13 | LIMIT n keeps a prefix of length min(n, size) |
| `MessageSql.CountWhere` | go/db/messages.go:17 | the count aggregate equals the length of the same view and clause's listing |
| `MessageSql.AuthorOf` | go/db/messages.go:18 | a non-empty author is the joined name of a row with that id; no row with that id gives "" |
| `MessageSql.RemoveId` | go/db/messages.go:19 | after the delete, the table holds exactly the old rows whose id differs |
| `MessageSql.Deliver` | go/db/messages.go:65-79 | a read returns a prefix of the statement's result; with no error and no early end of the stream it is the whole result; a decode failure at row k inside the result returns the first k rows with the decode error; a refused query gives the query error and no rows; an early end after k rows keeps min(k, size) rows with no error |
| `MessageSql.ScanMember` | go/db/messages.go:13-16 | a message is listed if and only if some table row's view row is that message and satisfies the clause |
| `MessageSql.ScanNewestFirst` | go/db/messages.go:13 | with ids increasing in the table, every listing is in strictly descending id order (ORDER BY id DESC) |
| `MessageSql.SelectNewest` | go/db/messages.go:13 | a limited listing has min(`limit`, size) messages, newest first; all qualifying messages when there are at most `limit`; any qualifying message left out is older than every message returned |
| `MessageSql.DirectPairSymmetric` | go/db/messages.go:88 | the pair passed twice, swapped, gives the same listing whichever user comes first, and it holds only messages from one of the two to the other |
| `MessageSql.NewerDirectPairSymmetric` | go/db/messages.go:109 | the same symmetry for the cursor form, whose messages are all past the cursor |
| `MessageSql.CursorBelowAllIds` | go/db/messages.go:14-16 | a cursor below every id in the table gives the same listing as the statement without a cursor |
| `MessageSql.CursorAboveAllIds` | go/db/messages.go:14-16 | a cursor at or above every id lists nothing |
| `MessageSql.SyncIsPrefix` | go/db/messages.go:14-16 | the cursor listing is the leading part of the full listing, all past the cursor, and everything after it in the full listing is at or below the cursor |
| `MessageSql.SelectSyncIsPrefix` | go/db/messages.go:126-143 | the same prefix relation holds between the limited cursor and full statements |
| `MessageSql.ScanAfterDelete` | go/db/messages.go:19 | after a delete every listing is the old listing with that id struck out, and nothing else changes |
| `MessageSql.RemoveAbsent` | go/db/messages.go:156-159 | deleting an id that is not in the table leaves the table unchanged |
| `MessageSql.RemoveIdempotent` | go/db/messages.go:156-159 | deleting the same id twice has the effect of deleting it once |
| `MessageSql.RemoveKeepsOrder` | go/db/messages.go:19 | a delete keeps the surviving ids strictly increasing |
| `MessageSql.RemoveOne` | go/db/messages.go:19 | with unique ids, deleting a present id removes exactly one row |
| `MessageSql.AuthorOfUnique` | go/db/messages.go:18 | with unique ids, the author lookup gives the joined name of the sender of the row with that id |
| `MessageStore.RoomRow` | go/db/messages.go:11 | defines the row the room INSERT stores: the given id and text, the sender's looked-up id, a null receiver, and chatroom id 0 for an unknown chatroom |
| `MessageStore.DirectRow` | go/db/messages.go:12 | defines the row the direct INSERT stores: the given id and text, the sender's and receiver's looked-up ids, and chatroom id 0 for an unknown chatroom |
| `MessageStore.DatabaseConnection.AddMessage` | go/db/messages.go:37-46 | a sender with id 0 or a lookup error is refused with the username error and the table is unchanged; a refused INSERT leaves it unchanged; otherwise exactly one row is appended with a fresh id above every existing one, a null receiver and the (possibly sentinel) chatroom id |
| `MessageStore.DatabaseConnection.AddDirectMessage` | go/db/messages.go:49-59 | refused when the sender's id is 0 or the receiver's lookup failed (the sender's own error is not tested); otherwise appends one row with a fresh id carrying the receiver's id |
| `MessageStore.DatabaseConnection.Fetch` | go/db/messages.go:71-79 | the collecting loop returns exactly `Deliver` of the statement's result under the fault |
| `MessageStore.DatabaseConnection.GetAllMessages` | go/db/messages.go:62-81 | returns the room statement's result under the fault: at most the limit, newest first, only that chatroom, with an empty receiver name |
| `MessageStore.DatabaseConnection.GetAllDirectMessages` | go/db/messages.go:84-104 | returns the pair statement's result, which is the same with the users swapped; at most the limit, newest first, only messages between the two |
| `MessageStore.DatabaseConnection.GetNewestDirectMessages` | go/db/messages.go:106-124 | returns the cursor pair statement's result, symmetric in the two users, past the cursor, newest first, limited; a prefix of the full pair listing, and equal to it for a cursor of 0 or below with no fault |
| `MessageStore.DatabaseConnection.GetNewestMessagesFrom` | go/db/messages.go:126-143 | returns the chatroom's messages past the cursor, newest first, limited; a prefix of the full room listing, and equal to it for a cursor of 0 or below with no fault |
| `MessageStore.DatabaseConnection.GetMessageCount` | go/db/messages.go:146-153 | the number of messages the chatroom's unlimited listing holds, or 0 when the count query fails |
| `MessageStore.DatabaseConnection.DeleteMessageById` | go/db/messages.go:156-159 | removes exactly the rows with that id, succeeds when there are none, and leaves the table unchanged when the DELETE is refused |
| `MessageStore.DatabaseConnection.GetUsernameFromMessageId` | go/db/messages.go:162-167 | the joined username of the message's sender; a non-empty answer is always the joined name of a row with that id, so a sender with no users row gives ""; "" when no message has that id or the lookup fails |
| `MessageStore.AddedMessageListedFirst` | go/db/messages.go:44 | with a consistent directory, a stored room message heads its chatroom's listing, the chatroom's count grows by one, and the author lookup of its id gives its sender |
| `MessageStore.AddedDirectMessageSeenByBoth` | go/db/messages.go:57 | a stored direct message heads the pair's listing whichever of the two users asks |
| `MessageStore.UnknownChatroomHidden` | go/db/messages.go:39 | a row stored under the sentinel chatroom id 0 changes no listing and no count, as long as no chatroom has id 0 |
| `MessageStore.DeletedNeverListed` | go/db/messages.go:156-159 | after a delete no listing returns that id, every other listed message is unchanged, and a second delete has no effect |
| `MessageScenarios.RoomListingExample` | go/db/messages.go:13-14 | with ids 1, 2, 3 in "general", the limit-2 listing and the listing after cursor 1 are both [3, 2] |
| `MessageScenarios.DirectListingExample` | go/db/messages.go:15 | "hi" from A to B and then "hey" from B to A are listed as [hey, hi] for (A, B) and for (B, A) |

## Left out

- The definitions of the `full_messages` and `full_direct_messages` views and of the users and chatrooms tables are not part of this model. `Project` assumes that `full_messages` holds the rows with a null receiver and that `full_direct_messages` holds the rows with a receiver, each inner-joined with the users and chatrooms tables.
- `GetUserId` and `GetIdFromChatroomName` are not part of this model. They are stood in for by the `Directory` maps, and `Consistent` states the agreement between names and ids that the visibility lemmas need.
- The connection, `context.Background()`, `Exec`, `Query`, `QueryRow` and `rows.Close()` are database I/O. They are replaced by the in-memory table, and their failures by the `execFails`, `failed` and `Fault` parameters.
- glog logging (lines 87 and 150) is a side effect only.
- The timestamp column and the `Timestamp` field are server-assigned and opaque, and the JSON tags are serialisation metadata. All are omitted.
- int64 widths are not modelled. Ids, cursors, limits and counts are unbounded integers.
- A negative `LIMIT` is a database error. Limits are `nat`, so callers pass a limit of 0 or more.
- `GetNewestDirectMessages` indexes `users[0]` and `users[1]` and panics on a shorter slice. It requires at least two users.
- `MessageStore.DatabaseConnection.AddMessage`: a refused INSERT leaves `nextId` unchanged. A real sequence may still consume a value, which leaves a gap in the ids. Gaps do not affect any property stated here.
- `MessageStore.DatabaseConnection.AddDirectMessage`: a refused INSERT leaves `nextId` unchanged, for the same reason and with the same effect as for `AddMessage`.
- Concurrent callers and transaction isolation are not modelled. Each operation is one atomic step on the table.
- `buildServer.py` is a build script with no logic to verify.
