/**
 The message store's methods: the two appends, the four listings, the
 count, the author lookup and the delete, run against an in-memory
 `messages` table. Each listing walks the table newest first and collects
 rows the way the result cursor hands them over; it is proved to return
 what the statement in module MessageSql selects.
 */
module MessageStore {
  import opened MessageSql

  /** The row `INSERT INTO messages VALUES(DEFAULT, user, null, chatroom, text)` adds. */
  function RoomRow(d: Directory, id: int, message: string, username: string, chatroomName: string): (r: Row)
    ensures r.id == id && r.body == message && r.receiverId.None?
    ensures r.userId == d.GetUserId(username).id
    ensures chatroomName !in d.chatroomIds ==> r.chatroomId == 0
  {
    Row(id, d.GetUserId(username).id, None, d.GetIdFromChatroomName(chatroomName), message)
  }

  /** The row `INSERT INTO messages VALUES(DEFAULT, user, receiver, chatroom, text)` adds. */
  function DirectRow(d: Directory, id: int, message: string, username: string, receivedUsername: string,
                     chatroomName: string): (r: Row)
    ensures r.id == id && r.body == message
    ensures r.userId == d.GetUserId(username).id && r.receiverId == Some(d.GetUserId(receivedUsername).id)
    ensures chatroomName !in d.chatroomIds ==> r.chatroomId == 0
  {
    Row(id, d.GetUserId(username).id, Some(d.GetUserId(receivedUsername).id),
        d.GetIdFromChatroomName(chatroomName), message)
  }

  class DatabaseConnection {
    /** The `messages` table in insertion order. */
    var rows: seq<Row>
    /** The next value of the id column's DEFAULT sequence. */
    var nextId: int

    ghost predicate Valid()
      reads this
    {
      && IdsIncreasing(rows)
      && 1 <= nextId
      && forall i :: 0 <= i < |rows| ==> 1 <= rows[i].id < nextId
    }

    constructor ()
      ensures Valid() && rows == [] && nextId == 1
    {
      rows := [];
      nextId := 1;
    }

    /** Appends `row` with the next id. */
    method Insert(row: Row)
      requires Valid()
      requires row.id == nextId
      modifies this
      ensures Valid()
      ensures rows == old(rows) + [row] && nextId == old(nextId) + 1
    {
      rows := rows + [row];
      nextId := nextId + 1;
    }

    /** Stores a room message from `username`. An unknown sender (id 0 or a
        failed lookup) is refused; an unknown chatroom is stored as id 0. */
    method AddMessage(message: string, username: string, chatroomName: string, d: Directory, execFails: bool)
      returns (err: Option<Error>)
      requires Valid()
      modifies this
      ensures Valid()
      ensures d.GetUserId(username).id == 0 || d.GetUserId(username).failed ==>
        err == Some(UserNotFound(username)) && rows == old(rows) && nextId == old(nextId)
      ensures d.GetUserId(username).id != 0 && !d.GetUserId(username).failed && execFails ==>
        err == Some(ExecFailed) && rows == old(rows) && nextId == old(nextId)
      ensures d.GetUserId(username).id != 0 && !d.GetUserId(username).failed && !execFails ==>
        && err == None
        && rows == old(rows) + [RoomRow(d, old(nextId), message, username, chatroomName)]
        && nextId == old(nextId) + 1
        && forall r :: r in old(rows) ==> r.id < old(nextId)
    {
      var user := d.GetUserId(username);
      if user.id == 0 || user.failed {
        return Some(UserNotFound(username));
      }
      if execFails {
        return Some(ExecFailed);
      }
      Insert(RoomRow(d, nextId, message, username, chatroomName));
      err := None;
    }

    /** Stores a direct message. The receiver's lookup error replaces the
        sender's before the guard, so the guard tests the sender's id and the
        receiver's error; the sender's own error is not looked at. */
    method AddDirectMessage(message: string, username: string, receivedUsername: string, chatroomName: string,
                            d: Directory, execFails: bool)
      returns (err: Option<Error>)
      requires Valid()
      modifies this
      ensures Valid()
      ensures d.GetUserId(username).id == 0 || d.GetUserId(receivedUsername).failed ==>
        err == Some(UserNotFound(username)) && rows == old(rows) && nextId == old(nextId)
      ensures d.GetUserId(username).id != 0 && !d.GetUserId(receivedUsername).failed && execFails ==>
        err == Some(ExecFailed) && rows == old(rows) && nextId == old(nextId)
      ensures d.GetUserId(username).id != 0 && !d.GetUserId(receivedUsername).failed && !execFails ==>
        && err == None
        && rows == old(rows) + [DirectRow(d, old(nextId), message, username, receivedUsername, chatroomName)]
        && nextId == old(nextId) + 1
        && forall r :: r in old(rows) ==> r.id < old(nextId)
    {
      var userId, failed := d.GetUserId(username).id, d.GetUserId(username).failed;
      // the receiver's lookup overwrites the sender's error flag
      failed := d.GetUserId(receivedUsername).failed;
      if userId == 0 || failed {
        return Some(UserNotFound(username));
      }
      if execFails {
        return Some(ExecFailed);
      }
      Insert(DirectRow(d, nextId, message, username, receivedUsername, chatroomName));
      err := None;
    }

    /** Runs a listing statement and collects its result rows one by one:
        each turn takes the next row in descending id order, and a row the
        view and clause keep is decoded and appended, until `limit` rows are
        in hand or the table is exhausted. A failed decode returns what was
        gathered with the error; an early end of the stream returns it with
        no error. */
    method Fetch(v: View, w: Where, limit: nat, d: Directory, fault: Fault)
      returns (messages: seq<Message>, err: Option<Error>)
      ensures Batch(messages, err) == Deliver(Select(v, d, rows, w, limit), fault)
    {
      messages, err := [], None;
      if fault.QueryFails? {
        err := Some(QueryFailed);
        return;
      }
      var i := |rows|;
      while i > 0 && |messages| < limit
        invariant 0 <= i <= |rows|
        invariant messages == Scan(v, d, rows[i..], w)
        invariant |messages| <= limit
        invariant fault.ScanFailsAt? ==> |messages| <= fault.k
        invariant fault.StreamEndsAt? ==> |messages| <= fault.k
        decreases i
      {
        ScanStep(v, d, rows, w, i);
        var p := Project(v, d, rows[i - 1]);
        i := i - 1;
        if p.Some? && Holds(w, p.value) {
          if fault == StreamEndsAt(|messages|) || fault == ScanFailsAt(|messages|) {
            FetchStopsEarly(v, d, rows, w, i, limit, messages, p.value);
            if fault.ScanFailsAt? {
              err := Some(ScanFailed);
            }
            return;
          }
          messages := messages + [p.value];
        }
      }
      FetchFinishes(v, d, rows, w, i, limit, messages, fault);
    }

    /** GetAllMessages: the newest `messageLimit` messages of the chatroom. */
    method GetAllMessages(chatroom: string, messageLimit: nat, d: Directory, fault: Fault)
      returns (messages: seq<Message>, err: Option<Error>)
      requires Valid()
      ensures Batch(messages, err) == Deliver(Select(FullMessages, d, rows, RoomIs(chatroom), messageLimit), fault)
      ensures |messages| <= messageLimit && NewestFirst(messages)
      ensures forall m :: m in messages ==> m.chatroom == chatroom && m.receivedUsername == ""
    {
      messages, err := Fetch(FullMessages, RoomIs(chatroom), messageLimit, d, fault);
      ListingFacts(FullMessages, d, rows, RoomIs(chatroom), messageLimit, fault);
    }

    /** GetAllDirectMessages: the newest `messageLimit` messages between the
        two users, in either direction. The pair is passed twice, swapped. */
    method GetAllDirectMessages(sender: string, receiver: string, messageLimit: nat, d: Directory, fault: Fault)
      returns (messages: seq<Message>, err: Option<Error>)
      requires Valid()
      ensures Batch(messages, err) ==
        Deliver(Select(FullDirectMessages, d, rows, PairIs(sender, receiver, receiver, sender), messageLimit), fault)
      ensures Batch(messages, err) ==
        Deliver(Select(FullDirectMessages, d, rows, PairIs(receiver, sender, sender, receiver), messageLimit), fault)
      ensures |messages| <= messageLimit && NewestFirst(messages)
      ensures forall m :: m in messages ==>
        (m.username == sender && m.receivedUsername == receiver) ||
        (m.username == receiver && m.receivedUsername == sender)
    {
      messages, err := Fetch(FullDirectMessages, PairIs(sender, receiver, receiver, sender), messageLimit, d, fault);
      DirectPairSymmetric(d, rows, sender, receiver, messageLimit);
      ListingFacts(FullDirectMessages, d, rows, PairIs(sender, receiver, receiver, sender), messageLimit, fault);
    }

    /** GetNewestDirectMessages: the messages between `users[0]` and
        `users[1]` newer than the cursor. It reads the first two entries, so
        callers pass at least two. */
    method GetNewestDirectMessages(messageId: int, users: seq<string>, messageLimit: nat, d: Directory, fault: Fault)
      returns (messages: seq<Message>, err: Option<Error>)
      requires Valid()
      requires |users| >= 2
      ensures Batch(messages, err) == Deliver(Select(FullDirectMessages, d, rows,
        NewerPairIs(messageId, users[0], users[1], users[1], users[0]), messageLimit), fault)
      ensures Batch(messages, err) == Deliver(Select(FullDirectMessages, d, rows,
        NewerPairIs(messageId, users[1], users[0], users[0], users[1]), messageLimit), fault)
      ensures |messages| <= messageLimit && NewestFirst(messages)
      ensures forall m :: m in messages ==>
        && messageId < m.messageId
        && ((m.username == users[0] && m.receivedUsername == users[1]) ||
            (m.username == users[1] && m.receivedUsername == users[0]))
      ensures messages <= Select(FullDirectMessages, d, rows, PairIs(users[0], users[1], users[1], users[0]), messageLimit)
      ensures messageId <= 0 && fault.NoFault? ==>
        messages == Select(FullDirectMessages, d, rows, PairIs(users[0], users[1], users[1], users[0]), messageLimit)
    {
      var w := NewerPairIs(messageId, users[0], users[1], users[1], users[0]);
      messages, err := Fetch(FullDirectMessages, w, messageLimit, d, fault);
      NewerDirectPairSymmetric(d, rows, messageId, users[0], users[1], messageLimit);
      ListingFacts(FullDirectMessages, d, rows, w, messageLimit, fault);
      var all := PairIs(users[0], users[1], users[1], users[0]);
      assert Since(all, messageId) == w;
      SelectSyncIsPrefix(FullDirectMessages, d, rows, all, messageId, messageLimit);
      if messageId <= 0 {
        CursorBelowAllIds(FullDirectMessages, d, rows, all, messageId);
      }
    }

    /** GetNewestMessagesFrom: the chatroom's messages newer than the cursor. */
    method GetNewestMessagesFrom(messageId: int, chatroom: string, messageLimit: nat, d: Directory, fault: Fault)
      returns (messages: seq<Message>, err: Option<Error>)
      requires Valid()
      ensures Batch(messages, err) ==
        Deliver(Select(FullMessages, d, rows, NewerInRoom(messageId, chatroom), messageLimit), fault)
      ensures |messages| <= messageLimit && NewestFirst(messages)
      ensures forall m :: m in messages ==> messageId < m.messageId && m.chatroom == chatroom
      ensures messages <= Select(FullMessages, d, rows, RoomIs(chatroom), messageLimit)
      ensures messageId <= 0 && fault.NoFault? ==>
        messages == Select(FullMessages, d, rows, RoomIs(chatroom), messageLimit)
    {
      var w := NewerInRoom(messageId, chatroom);
      messages, err := Fetch(FullMessages, w, messageLimit, d, fault);
      ListingFacts(FullMessages, d, rows, w, messageLimit, fault);
      assert Since(RoomIs(chatroom), messageId) == w;
      SelectSyncIsPrefix(FullMessages, d, rows, RoomIs(chatroom), messageId, messageLimit);
      if messageId <= 0 {
        CursorBelowAllIds(FullMessages, d, rows, RoomIs(chatroom), messageId);
      }
    }

    /** GetMessageCount: how many messages the chatroom's listing holds; 0
        when the count query fails. */
    function GetMessageCount(chatroom: string, d: Directory, failed: bool): (count: nat)
      reads this
      ensures failed ==> count == 0
      ensures !failed ==> count == |Scan(FullMessages, d, rows, RoomIs(chatroom))|
    {
      if failed then 0 else CountWhere(FullMessages, d, rows, RoomIs(chatroom))
    }

    /** DeleteMessageById: removes the row with that id, if any. */
    method DeleteMessageById(messageId: int, execFails: bool) returns (err: Option<Error>)
      requires Valid()
      modifies this
      ensures Valid()
      ensures nextId == old(nextId)
      ensures execFails ==> err == Some(ExecFailed) && rows == old(rows)
      ensures !execFails ==> err == None && rows == RemoveId(old(rows), messageId)
    {
      if execFails {
        return Some(ExecFailed);
      }
      RemoveKeepsOrder(rows, messageId);
      rows := RemoveId(rows, messageId);
      err := None;
    }

    /** GetUsernameFromMessageId: the author of the message, or "" when there
        is no such message or the lookup fails. */
    function GetUsernameFromMessageId(messageId: int, d: Directory, failed: bool): (username: string)
      reads this
      requires Valid()
      ensures failed ==> username == ""
      ensures (forall r :: r in rows ==> r.id != messageId) ==> username == ""
      ensures username != "" ==>
        exists r :: r in rows && r.id == messageId && r.userId in d.usernames && d.usernames[r.userId] == username
      ensures !failed ==> forall r :: r in rows && r.id == messageId && r.userId in d.usernames ==>
        username == d.usernames[r.userId]
    {
      if failed then "" else
        var name := AuthorOf(d, rows, messageId);
        assert forall r :: r in rows && r.id == messageId && r.userId in d.usernames ==>
          name == d.usernames[r.userId] by {
          forall r | r in rows && r.id == messageId && r.userId in d.usernames
            ensures name == d.usernames[r.userId]
          {
            AuthorOfUnique(d, rows, messageId, r);
          }
        }
        name
    }
  }

  /** What every listing method promises beyond its statement: at most
      `limit` messages, newest first, each satisfying the clause, and from
      the room view each with an empty receiver. */
  lemma ListingFacts(v: View, d: Directory, rows: seq<Row>, w: Where, limit: nat, fault: Fault)
    requires IdsIncreasing(rows)
    ensures var b := Deliver(Select(v, d, rows, w, limit), fault);
      && |b.messages| <= limit
      && NewestFirst(b.messages)
      && (forall m :: m in b.messages ==> Holds(w, m))
      && (v.FullMessages? ==> forall m :: m in b.messages ==> m.receivedUsername == "")
  {
    var sel := Select(v, d, rows, w, limit);
    var b := Deliver(sel, fault);
    SelectNewest(v, d, rows, w, limit);
    assert forall m :: m in b.messages ==> m in sel;
    assert forall i :: 0 <= i < |b.messages| ==> b.messages[i] == sel[i];
    if v.FullMessages? {
      forall m | m in b.messages
        ensures m.receivedUsername == ""
      {
        ScanMember(v, d, rows, w, m);
      }
    }
  }

  /** A stored room message heads its chatroom's listing, one more message is
      counted there, and the author lookup of its id gives its sender. */
  lemma {:induction false} AddedMessageListedFirst(d: Directory, rows: seq<Row>, id: int, message: string,
                                                   username: string, chatroomName: string, limit: nat)
    requires Consistent(d)
    requires IdsIncreasing(rows) && forall r :: r in rows ==> r.id < id
    requires d.GetUserId(username).id != 0 && !d.GetUserId(username).failed
    requires d.GetIdFromChatroomName(chatroomName) != 0
    requires limit >= 1
    ensures var listed := Select(FullMessages, d, rows + [RoomRow(d, id, message, username, chatroomName)],
                                 RoomIs(chatroomName), limit);
      listed != [] && listed[0] == Message(id, username, "", chatroomName, message)
    ensures CountWhere(FullMessages, d, rows + [RoomRow(d, id, message, username, chatroomName)], RoomIs(chatroomName))
         == CountWhere(FullMessages, d, rows, RoomIs(chatroomName)) + 1
    ensures AuthorOf(d, rows + [RoomRow(d, id, message, username, chatroomName)], id) == username
  {
    var row := RoomRow(d, id, message, username, chatroomName);
    ScanAppend(FullMessages, d, rows, [row], RoomIs(chatroomName));
    assert [row][1..] == [];
    assert Kept(FullMessages, d, row, RoomIs(chatroomName)) == [Message(id, username, "", chatroomName, message)];
    AppendedKeepsOrder(rows, row);
    AuthorOfUnique(d, rows + [row], id, row);
  }

  /** A stored direct message heads the pair's listing whichever of the two asks. */
  lemma {:induction false} AddedDirectMessageSeenByBoth(d: Directory, rows: seq<Row>, id: int, message: string,
                                                        username: string, receivedUsername: string,
                                                        chatroomName: string, limit: nat)
    requires Consistent(d)
    requires d.GetUserId(username).id != 0 && !d.GetUserId(username).failed
    requires d.GetUserId(receivedUsername).id != 0 && !d.GetUserId(receivedUsername).failed
    requires d.GetIdFromChatroomName(chatroomName) != 0
    requires limit >= 1
    ensures var after := rows + [DirectRow(d, id, message, username, receivedUsername, chatroomName)];
      var sent := Message(id, username, receivedUsername, chatroomName, message);
      var mine := Select(FullDirectMessages, d, after, PairIs(username, receivedUsername, receivedUsername, username), limit);
      var theirs := Select(FullDirectMessages, d, after, PairIs(receivedUsername, username, username, receivedUsername), limit);
      mine != [] && mine[0] == sent && theirs != [] && theirs[0] == sent
  {
    var row := DirectRow(d, id, message, username, receivedUsername, chatroomName);
    var w := PairIs(username, receivedUsername, receivedUsername, username);
    ScanAppend(FullDirectMessages, d, rows, [row], w);
    assert [row][1..] == [];
    assert Kept(FullDirectMessages, d, row, w) == [Message(id, username, receivedUsername, chatroomName, message)];
    DirectPairSymmetric(d, rows + [row], username, receivedUsername, limit);
  }

  /** A message stored under the sentinel chatroom id 0 (an unknown chatroom
      name) appears in no listing and no count, as long as no chatroom has id 0. */
  lemma {:induction false} UnknownChatroomHidden(v: View, d: Directory, rows: seq<Row>, row: Row, w: Where)
    requires row.chatroomId == 0 && 0 !in d.chatroomNames
    ensures Scan(v, d, rows + [row], w) == Scan(v, d, rows, w)
  {
    ScanAppend(v, d, rows, [row], w);
    assert [row][1..] == [];
  }

  /** After a delete no listing holds that id, nothing else changes in any
      listing, and a second delete of the same id changes nothing. */
  lemma DeletedNeverListed(v: View, d: Directory, rows: seq<Row>, w: Where, id: int, limit: nat)
    ensures forall m :: m in Select(v, d, RemoveId(rows, id), w, limit) ==> m.messageId != id
    ensures Scan(v, d, RemoveId(rows, id), w) == DropId(Scan(v, d, rows, w), id)
    ensures RemoveId(RemoveId(rows, id), id) == RemoveId(rows, id)
  {
    ScanAfterDelete(v, d, rows, w, id);
    RemoveIdempotent(rows, id);
  }

  /** One turn of the collecting loop: the next older row adds its part at the end. */
  lemma ScanStep(v: View, d: Directory, rows: seq<Row>, w: Where, i: nat)
    requires 0 < i <= |rows|
    ensures Scan(v, d, rows[i - 1..], w) == Scan(v, d, rows[i..], w) + Kept(v, d, rows[i - 1], w)
  {
    assert rows[i - 1..][1..] == rows[i..];
  }

  /** The loop is stopped by a fault at the row after `messages`. */
  lemma FetchStopsEarly(v: View, d: Directory, rows: seq<Row>, w: Where, i: nat, limit: nat,
                        messages: seq<Message>, m: Message)
    requires i <= |rows| && |messages| < limit
    requires Scan(v, d, rows[i..], w) == messages + [m]
    ensures Deliver(Select(v, d, rows, w, limit), ScanFailsAt(|messages|)) == Batch(messages, Some(ScanFailed))
    ensures Deliver(Select(v, d, rows, w, limit), StreamEndsAt(|messages|)) == Batch(messages, None)
  {
    ScanSuffix(v, d, rows, w, i);
    var all := Scan(v, d, rows, w);
    assert all[..|messages|] == messages;
    assert Select(v, d, rows, w, limit)[..|messages|] == messages;
  }

  /** The loop ran out of rows or reached the limit. */
  lemma FetchFinishes(v: View, d: Directory, rows: seq<Row>, w: Where, i: nat, limit: nat,
                      messages: seq<Message>, fault: Fault)
    requires i <= |rows| && |messages| <= limit
    requires messages == Scan(v, d, rows[i..], w)
    requires i == 0 || |messages| == limit
    requires !fault.QueryFails?
    requires fault.ScanFailsAt? ==> |messages| <= fault.k
    requires fault.StreamEndsAt? ==> |messages| <= fault.k
    ensures Deliver(Select(v, d, rows, w, limit), fault) == Batch(messages, None)
  {
    ScanSuffix(v, d, rows, w, i);
    assert rows[0..] == rows;
    assert Select(v, d, rows, w, limit) == messages;
  }

  lemma AppendedKeepsOrder(rows: seq<Row>, row: Row)
    requires IdsIncreasing(rows) && forall r :: r in rows ==> r.id < row.id
    ensures IdsIncreasing(rows + [row])
  {
    var all := rows + [row];
    forall i, j | 0 <= i < j < |all|
      ensures all[i].id < all[j].id
    {
      if j == |rows| {
        assert all[i] in rows;
      }
    }
  }
}
