/**
 The statements behind the message store: the `messages` table, the two
 read views over it, the WHERE clauses of the four listing queries, their
 `ORDER BY id DESC LIMIT n` tail, the count, the author lookup and the
 delete. Everything here is a pure function of the table's rows; the
 methods that run these statements are in module MessageStore.
 */
module MessageSql {

  datatype Option<T> = None | Some(value: T)

  /** One row of the `messages` table: id, user_id, receiver id (null for a
      room message), chatroom id and the text. The timestamp column is left out. */
  datatype Row = Row(id: int, userId: int, receiverId: Option<int>, chatroomId: int, body: string)

  /** A message as the read methods hand it back (the timestamp left out). */
  datatype Message = Message(messageId: int, username: string, receivedUsername: string, chatroom: string, text: string)

  /** What a user-id lookup answers: the id (0 for nobody) and whether it reported an error. */
  datatype Lookup = Lookup(id: int, failed: bool)

  /** The identity tables the store talks to but does not own. The write path
      asks `userIds` and `chatroomIds` (name to id); the read views join
      through `usernames` and `chatroomNames` (id to name). */
  datatype Directory = Directory(
    userIds: map<string, Lookup>,
    chatroomIds: map<string, int>,
    usernames: map<int, string>,
    chatroomNames: map<int, string>)
  {
    /** A name the user table does not know comes back as id 0 with an error. */
    function GetUserId(name: string): (l: Lookup)
      ensures name !in userIds ==> l.id == 0 && l.failed
    {
      if name in userIds then userIds[name] else Lookup(0, true)
    }

    /** A chatroom name that is not known comes back as the sentinel id 0. */
    function GetIdFromChatroomName(name: string): (id: int)
      ensures name !in chatroomIds ==> id == 0
    {
      if name in chatroomIds then chatroomIds[name] else 0
    }
  }

  /** The two directions of the directory agree: a name that resolves to a
      non-zero id is the name that id joins back to. */
  ghost predicate Consistent(d: Directory) {
    && (forall name :: name in d.userIds && d.userIds[name].id != 0 && !d.userIds[name].failed ==>
          d.userIds[name].id in d.usernames && d.usernames[d.userIds[name].id] == name)
    && (forall name :: name in d.chatroomIds && d.chatroomIds[name] != 0 ==>
          d.chatroomIds[name] in d.chatroomNames && d.chatroomNames[d.chatroomIds[name]] == name)
  }

  /** The two views the listings read from. */
  datatype View = FullMessages | FullDirectMessages

  /** The view's row for a table row, if the view has one: room rows (no
      receiver) in `full_messages`, direct rows in `full_direct_messages`,
      each joined by inner join with the users and chatrooms tables. A room
      message is read back with an empty receiver name. */
  function Project(v: View, d: Directory, r: Row): (p: Option<Message>)
    ensures p.Some? ==> p.value.messageId == r.id && p.value.text == r.body
    ensures p.Some? && v.FullMessages? ==> r.receiverId.None? && p.value.receivedUsername == ""
    ensures p.Some? && v.FullDirectMessages? ==> r.receiverId.Some?
  {
    match v
    case FullMessages =>
      if r.receiverId.None? && r.userId in d.usernames && r.chatroomId in d.chatroomNames
      then Some(Message(r.id, d.usernames[r.userId], "", d.chatroomNames[r.chatroomId], r.body))
      else None
    case FullDirectMessages =>
      if r.receiverId.Some? && r.userId in d.usernames && r.receiverId.value in d.usernames
         && r.chatroomId in d.chatroomNames
      then Some(Message(r.id, d.usernames[r.userId], d.usernames[r.receiverId.value],
                        d.chatroomNames[r.chatroomId], r.body))
      else None
  }

  /** The WHERE clauses of the four listing statements, with their parameters
      in the order the statements number them. */
  datatype Where =
    | RoomIs(name: string)
    | NewerInRoom(after: int, name: string)
    | PairIs(sender1: string, receiver1: string, sender2: string, receiver2: string)
    | NewerPairIs(after: int, sender1: string, receiver1: string, sender2: string, receiver2: string)

  /** Whether a view row satisfies the clause; AND binds tighter than OR. */
  predicate Holds(w: Where, m: Message)
    ensures Holds(w, m) && (w.RoomIs? || w.NewerInRoom?) ==> m.chatroom == w.name
    ensures Holds(w, m) && (w.NewerInRoom? || w.NewerPairIs?) ==> m.messageId > w.after
    ensures Holds(w, m) && (w.PairIs? || w.NewerPairIs?) ==>
      (m.username, m.receivedUsername) in {(w.sender1, w.receiver1), (w.sender2, w.receiver2)}
  {
    match w
    case RoomIs(name) =>
      m.chatroom == name
    case NewerInRoom(after, name) =>
      m.messageId > after && m.chatroom == name
    case PairIs(s1, r1, s2, r2) =>
      (m.username == s1 && m.receivedUsername == r1) || (m.username == s2 && m.receivedUsername == r2)
    case NewerPairIs(after, s1, r1, s2, r2) =>
      (m.messageId > after && m.username == s1 && m.receivedUsername == r1)
      || (m.messageId > after && m.username == s2 && m.receivedUsername == r2)
  }

  /** The cursor form of a listing clause: the "newest" statement that goes
      with an "all" statement. Because the cursor test is repeated in both
      disjuncts, it bounds the whole disjunction. */
  function Since(w: Where, after: int): (s: Where)
    requires w.RoomIs? || w.PairIs?
    ensures forall m :: Holds(s, m) <==> m.messageId > after && Holds(w, m)
  {
    if w.RoomIs? then NewerInRoom(after, w.name)
    else NewerPairIs(after, w.sender1, w.receiver1, w.sender2, w.receiver2)
  }

  /** What one table row contributes to a listing. */
  function Kept(v: View, d: Directory, r: Row, w: Where): (k: seq<Message>)
    ensures |k| <= 1
    ensures forall m :: m in k ==> Holds(w, m) && m.messageId == r.id
  {
    match Project(v, d, r)
    case Some(m) => if Holds(w, m) then [m] else []
    case None => []
  }

  /** `SELECT * FROM v WHERE w ORDER BY id DESC` without a limit: the rows are
      kept in insertion order, so the newest comes first by walking the
      table from its end (ScanNewestFirst shows this is descending by id). */
  function Scan(v: View, d: Directory, rows: seq<Row>, w: Where): (ms: seq<Message>)
    ensures |ms| <= |rows|
    ensures forall m :: m in ms ==> Holds(w, m)
  {
    if rows == [] then [] else Scan(v, d, rows[1..], w) + Kept(v, d, rows[0], w)
  }

  /** `LIMIT n`. */
  function Take(ms: seq<Message>, n: nat): (t: seq<Message>)
    ensures t <= ms
    ensures |t| == if |ms| <= n then |ms| else n
    ensures forall m :: m in t ==> m in ms
  {
    if |ms| <= n then ms else ms[..n]
  }

  /** A whole listing statement. */
  function Select(v: View, d: Directory, rows: seq<Row>, w: Where, limit: nat): (sel: seq<Message>)
    ensures |sel| <= limit && |sel| <= |rows|
    ensures forall m :: m in sel ==> Holds(w, m)
  {
    Take(Scan(v, d, rows, w), limit)
  }

  /** The `count(id)` aggregate over the same view and clause. */
  function CountWhere(v: View, d: Directory, rows: seq<Row>, w: Where): (n: nat)
    ensures n == |Scan(v, d, rows, w)|
  {
    if rows == [] then 0 else CountWhere(v, d, rows[1..], w) + |Kept(v, d, rows[0], w)|
  }

  /** `SELECT users.username FROM messages INNER JOIN users ... WHERE messages.id = id`:
      the base table, so room and direct messages alike; "" when no row joins. */
  function AuthorOf(d: Directory, rows: seq<Row>, id: int): (name: string)
    ensures name != "" ==>
      exists r :: r in rows && r.id == id && r.userId in d.usernames && d.usernames[r.userId] == name
    ensures (forall r :: r in rows ==> r.id != id) ==> name == ""
  {
    if rows == [] then ""
    else if rows[0].id == id && rows[0].userId in d.usernames then d.usernames[rows[0].userId]
    else AuthorOf(d, rows[1..], id)
  }

  /** `DELETE FROM messages WHERE id = id`. */
  function RemoveId(rows: seq<Row>, id: int): (rest: seq<Row>)
    ensures forall r :: r in rest <==> r in rows && r.id != id
  {
    if rows == [] then []
    else (if rows[0].id == id then [] else [rows[0]]) + RemoveId(rows[1..], id)
  }

  /** A listing with one message id struck out. */
  function DropId(ms: seq<Message>, id: int): (rest: seq<Message>)
    ensures forall m :: m in rest <==> m in ms && m.messageId != id
  {
    if ms == [] then []
    else (if ms[0].messageId == id then [] else [ms[0]]) + DropId(ms[1..], id)
  }

  /** The table keeps ids strictly increasing in insertion order. */
  predicate IdsIncreasing(rows: seq<Row>) {
    forall i, j :: 0 <= i < j < |rows| ==> rows[i].id < rows[j].id
  }

  /** A listing in strictly descending id order. */
  predicate NewestFirst(ms: seq<Message>) {
    forall i, j :: 0 <= i < j < |ms| ==> ms[j].messageId < ms[i].messageId
  }

  // ---------------------------------------------------------------------
  // Failures of the database round trip

  datatype Error =
    | UserNotFound(username: string)   // "Couldn't find anyone with the username ..."
    | ExecFailed                       // the INSERT or DELETE was refused
    | QueryFailed                      // the SELECT was refused
    | ScanFailed                       // a result row could not be decoded

  /** Where a read goes wrong: not at all, when the statement is sent, when
      the k-th result row is decoded, or by the result stream ending early
      after k rows (the cursor reports no more rows; nobody asks it why). */
  datatype Fault = NoFault | QueryFails | ScanFailsAt(k: nat) | StreamEndsAt(k: nat)

  /** The pair a read method returns: the rows gathered and the error. */
  datatype Batch = Batch(messages: seq<Message>, err: Option<Error>)

  /** What a read method returns for the statement's `result` under `fault`.
      A failed decode keeps the rows gathered before it, so a batch is not
      all-or-nothing; an early end of the stream truncates with no error. */
  function Deliver(result: seq<Message>, fault: Fault): (b: Batch)
    ensures b.messages <= result
    ensures b.err.None? && !fault.StreamEndsAt? ==> b.messages == result
    ensures b.err == Some(ScanFailed) ==> fault == ScanFailsAt(|b.messages|) && |b.messages| < |result|
    ensures b.err == Some(QueryFailed) <==> fault.QueryFails?
    ensures b.err.Some? ==> b.err == Some(ScanFailed) || b.err == Some(QueryFailed)
    ensures fault.QueryFails? ==> b.messages == []
    ensures fault.ScanFailsAt? && fault.k < |result| ==> b == Batch(result[..fault.k], Some(ScanFailed))
    ensures fault.StreamEndsAt? ==>
      b.err.None? && |b.messages| == (if fault.k < |result| then fault.k else |result|)
  {
    match fault
    case NoFault => Batch(result, None)
    case QueryFails => Batch([], Some(QueryFailed))
    case ScanFailsAt(k) => if k < |result| then Batch(result[..k], Some(ScanFailed)) else Batch(result, None)
    case StreamEndsAt(k) => Batch(Take(result, k), None)
  }

  // ---------------------------------------------------------------------
  // Lemmas about the listings

  /** Listing a concatenation lists the newer part first. */
  lemma {:induction false} ScanAppend(v: View, d: Directory, a: seq<Row>, b: seq<Row>, w: Where)
    ensures Scan(v, d, a + b, w) == Scan(v, d, b, w) + Scan(v, d, a, w)
  {
    if a == [] {
      assert a + b == b;
    } else {
      assert (a + b)[0] == a[0];
      assert (a + b)[1..] == a[1..] + b;
      ScanAppend(v, d, a[1..], b, w);
    }
  }

  /** The rows of a suffix of the table are the leading part of its listing. */
  lemma ScanSuffix(v: View, d: Directory, rows: seq<Row>, w: Where, i: nat)
    requires i <= |rows|
    ensures Scan(v, d, rows, w) == Scan(v, d, rows[i..], w) + Scan(v, d, rows[..i], w)
  {
    assert rows == rows[..i] + rows[i..];
    ScanAppend(v, d, rows[..i], rows[i..], w);
  }

  /** A listing holds exactly the view rows of the table that satisfy the clause. */
  lemma {:induction false} ScanMember(v: View, d: Directory, rows: seq<Row>, w: Where, m: Message)
    ensures m in Scan(v, d, rows, w) <==> exists r :: r in rows && Project(v, d, r) == Some(m) && Holds(w, m)
  {
    if rows != [] {
      ScanMember(v, d, rows[1..], w, m);
      assert rows == [rows[0]] + rows[1..];
      assert forall r :: r in rows <==> r == rows[0] || r in rows[1..];
    }
  }

  /** With ids increasing, everything listed from the rows after the first
      is newer than the first row. */
  lemma ScanAboveHead(v: View, d: Directory, rows: seq<Row>, w: Where)
    requires IdsIncreasing(rows) && rows != []
    ensures forall m :: m in Scan(v, d, rows[1..], w) ==> rows[0].id < m.messageId
  {
    var rest := rows[1..];
    forall m | m in Scan(v, d, rest, w)
      ensures rows[0].id < m.messageId
    {
      ScanMember(v, d, rest, w, m);
      var r :| r in rest && Project(v, d, r) == Some(m) && Holds(w, m);
      var j :| 0 <= j < |rest| && rest[j] == r;
      assert rows[j + 1] == r;
    }
  }

  /** With ids increasing in the table, every listing is in strictly
      descending id order: walking from the end is ORDER BY id DESC. */
  lemma {:induction false} ScanNewestFirst(v: View, d: Directory, rows: seq<Row>, w: Where)
    requires IdsIncreasing(rows)
    ensures NewestFirst(Scan(v, d, rows, w))
  {
    if rows != [] {
      var rest := rows[1..];
      ScanNewestFirst(v, d, rest, w);
      var s := Scan(v, d, rest, w);
      var k := Kept(v, d, rows[0], w);
      ScanAboveHead(v, d, rows, w);
      assert forall x :: x in k ==> x.messageId == rows[0].id;
      var all := s + k;
      forall i, j | 0 <= i < j < |all|
        ensures all[j].messageId < all[i].messageId
      {
        if j >= |s| {
          assert all[j] in k;
          if i < |s| {
            assert all[i] in s;
          }
        }
      }
    }
  }

  /** A listing statement returns at most `limit` messages, newest first, and
      they are the newest ones: any qualifying message it leaves out is older
      than every message it returns. */
  lemma SelectNewest(v: View, d: Directory, rows: seq<Row>, w: Where, limit: nat)
    requires IdsIncreasing(rows)
    ensures var sel := Select(v, d, rows, w, limit);
      && |sel| <= limit
      && NewestFirst(sel)
      && |sel| == (if |Scan(v, d, rows, w)| <= limit then |Scan(v, d, rows, w)| else limit)
      && (|Scan(v, d, rows, w)| <= limit ==> sel == Scan(v, d, rows, w))
      && forall m, x :: m in sel && x in Scan(v, d, rows, w) && x !in sel ==> x.messageId < m.messageId
  {
    ScanNewestFirst(v, d, rows, w);
    TakeNewest(Scan(v, d, rows, w), limit);
  }

  /** LIMIT on a newest-first listing keeps it newest first, and what it cuts
      off is older than everything it keeps. */
  lemma TakeNewest(all: seq<Message>, n: nat)
    requires NewestFirst(all)
    ensures NewestFirst(Take(all, n))
    ensures forall m, x :: m in Take(all, n) && x in all && x !in Take(all, n) ==> x.messageId < m.messageId
  {
    var sel := Take(all, n);
    forall m, x | m in sel && x in all && x !in sel
      ensures x.messageId < m.messageId
    {
      var i :| 0 <= i < |sel| && sel[i] == m;
      var j :| 0 <= j < |all| && all[j] == x;
      assert forall k :: 0 <= k < |sel| ==> sel[k] == all[k];
      assert all[i] == m;
    }
  }

  /** Two clauses that agree on every row of the table give the same listing. */
  lemma {:induction false} ScanSameWhere(v: View, d: Directory, rows: seq<Row>, w1: Where, w2: Where)
    requires forall r :: r in rows ==> Kept(v, d, r, w1) == Kept(v, d, r, w2)
    ensures Scan(v, d, rows, w1) == Scan(v, d, rows, w2)
  {
    if rows != [] {
      assert forall r :: r in rows[1..] ==> r in rows;
      ScanSameWhere(v, d, rows[1..], w1, w2);
      assert rows[0] in rows;
    }
  }

  /** The direct-message listing is the same whichever user of the pair asks,
      and it only holds messages between the two of them. */
  lemma DirectPairSymmetric(d: Directory, rows: seq<Row>, a: string, b: string, limit: nat)
    ensures Select(FullDirectMessages, d, rows, PairIs(a, b, b, a), limit)
         == Select(FullDirectMessages, d, rows, PairIs(b, a, a, b), limit)
    ensures forall m :: m in Select(FullDirectMessages, d, rows, PairIs(a, b, b, a), limit) ==>
      (m.username == a && m.receivedUsername == b) || (m.username == b && m.receivedUsername == a)
  {
    ScanSameWhere(FullDirectMessages, d, rows, PairIs(a, b, b, a), PairIs(b, a, a, b));
  }

  /** The same for the cursor form, which also only holds messages past the cursor. */
  lemma NewerDirectPairSymmetric(d: Directory, rows: seq<Row>, after: int, a: string, b: string, limit: nat)
    ensures Select(FullDirectMessages, d, rows, NewerPairIs(after, a, b, b, a), limit)
         == Select(FullDirectMessages, d, rows, NewerPairIs(after, b, a, a, b), limit)
    ensures forall m :: m in Select(FullDirectMessages, d, rows, NewerPairIs(after, a, b, b, a), limit) ==>
      after < m.messageId &&
      ((m.username == a && m.receivedUsername == b) || (m.username == b && m.receivedUsername == a))
  {
    ScanSameWhere(FullDirectMessages, d, rows, NewerPairIs(after, a, b, b, a), NewerPairIs(after, b, a, a, b));
  }

  /** A cursor below every id in the table is no bound at all. */
  lemma CursorBelowAllIds(v: View, d: Directory, rows: seq<Row>, w: Where, after: int)
    requires w.RoomIs? || w.PairIs?
    requires forall r :: r in rows ==> after < r.id
    ensures Scan(v, d, rows, Since(w, after)) == Scan(v, d, rows, w)
  {
    ScanSameWhere(v, d, rows, Since(w, after), w);
  }

  /** A cursor at or above every id in the table lists nothing. */
  lemma CursorAboveAllIds(v: View, d: Directory, rows: seq<Row>, w: Where, after: int)
    requires w.RoomIs? || w.PairIs?
    requires forall r :: r in rows ==> r.id <= after
    ensures Scan(v, d, rows, Since(w, after)) == []
  {
    var s := Scan(v, d, rows, Since(w, after));
    if s != [] {
      var m := s[0];
      assert m in s;
      ScanMember(v, d, rows, Since(w, after), m);
      assert false;
    }
  }

  /** The first index whose id is past the cursor. */
  function Boundary(rows: seq<Row>, after: int): (j: nat)
    requires IdsIncreasing(rows)
    ensures j <= |rows|
    ensures forall i :: 0 <= i < j ==> rows[i].id <= after
    ensures forall i :: j <= i < |rows| ==> after < rows[i].id
  {
    if rows == [] || after < rows[0].id then 0 else 1 + Boundary(rows[1..], after)
  }

  /** Incremental sync: the cursor listing is the leading part of the full
      listing, and everything the full listing has beyond it is at or below
      the cursor. So the cursor listing is exactly the full listing's
      messages newer than the cursor. */
  lemma SyncIsPrefix(v: View, d: Directory, rows: seq<Row>, w: Where, after: int)
    requires w.RoomIs? || w.PairIs?
    requires IdsIncreasing(rows)
    ensures var newer, all := Scan(v, d, rows, Since(w, after)), Scan(v, d, rows, w);
      && newer <= all
      && (forall m :: m in newer ==> after < m.messageId)
      && forall j :: |newer| <= j < |all| ==> all[j].messageId <= after
  {
    var j := Boundary(rows, after);
    var old_, new_ := rows[..j], rows[j..];
    ScanSuffix(v, d, rows, Since(w, after), j);
    ScanSuffix(v, d, rows, w, j);
    CursorBelowAllIds(v, d, new_, w, after);
    CursorAboveAllIds(v, d, old_, w, after);
    var all := Scan(v, d, rows, w);
    var newer := Scan(v, d, new_, w);
    forall k | |newer| <= k < |all|
      ensures all[k].messageId <= after
    {
      var m := all[k];
      assert m in Scan(v, d, old_, w);
      ScanMember(v, d, old_, w, m);
    }
  }

  /** The same at the level of the limited statements. */
  lemma SelectSyncIsPrefix(v: View, d: Directory, rows: seq<Row>, w: Where, after: int, limit: nat)
    requires w.RoomIs? || w.PairIs?
    requires IdsIncreasing(rows)
    ensures var newer, all := Select(v, d, rows, Since(w, after), limit), Select(v, d, rows, w, limit);
      && newer <= all
      && forall j :: |newer| <= j < |all| ==> all[j].messageId <= after
  {
    SyncIsPrefix(v, d, rows, w, after);
  }

  /** The listing of the table after a delete is the old listing with that id struck out. */
  lemma {:induction false} ScanAfterDelete(v: View, d: Directory, rows: seq<Row>, w: Where, id: int)
    ensures Scan(v, d, RemoveId(rows, id), w) == DropId(Scan(v, d, rows, w), id)
  {
    if rows != [] {
      var head := if rows[0].id == id then [] else [rows[0]];
      var tail := RemoveId(rows[1..], id);
      var k := Kept(v, d, rows[0], w);
      assert RemoveId(rows, id) == head + tail;
      ScanAfterDelete(v, d, rows[1..], w, id);
      ScanAppend(v, d, head, tail, w);
      DropAppend(Scan(v, d, rows[1..], w), k, id);
      KeptAfterDelete(v, d, rows[0], w, id);
    }
  }

  /** One row's part of a listing, before and after deleting an id. */
  lemma KeptAfterDelete(v: View, d: Directory, r: Row, w: Where, id: int)
    ensures Scan(v, d, if r.id == id then [] else [r], w) == DropId(Kept(v, d, r, w), id)
  {
    var k := Kept(v, d, r, w);
    if r.id != id {
      assert [r][1..] == [];
      assert Scan(v, d, [r], w) == k;
      if k != [] {
        assert k[1..] == [];
      }
    } else if k != [] {
      assert k[1..] == [];
    }
  }

  lemma {:induction false} DropAppend(a: seq<Message>, b: seq<Message>, id: int)
    ensures DropId(a + b, id) == DropId(a, id) + DropId(b, id)
  {
    if a == [] {
      assert a + b == b;
    } else {
      assert (a + b)[0] == a[0];
      assert (a + b)[1..] == a[1..] + b;
      DropAppend(a[1..], b, id);
    }
  }

  /** Deleting an id that is not in the table changes nothing. */
  lemma {:induction false} RemoveAbsent(rows: seq<Row>, id: int)
    requires forall r :: r in rows ==> r.id != id
    ensures RemoveId(rows, id) == rows
  {
    if rows != [] {
      assert rows[0] in rows;
      assert forall r :: r in rows[1..] ==> r in rows;
      RemoveAbsent(rows[1..], id);
      assert rows == [rows[0]] + rows[1..];
    }
  }

  /** Deleting the same id twice has the effect of deleting it once. */
  lemma RemoveIdempotent(rows: seq<Row>, id: int)
    ensures RemoveId(RemoveId(rows, id), id) == RemoveId(rows, id)
  {
    RemoveAbsent(RemoveId(rows, id), id);
  }

  /** Deleting keeps the surviving rows in their order. */
  lemma {:induction false} RemoveKeepsOrder(rows: seq<Row>, id: int)
    requires IdsIncreasing(rows)
    ensures IdsIncreasing(RemoveId(rows, id))
  {
    if rows != [] {
      var rest := RemoveId(rows[1..], id);
      RemoveKeepsOrder(rows[1..], id);
      if rows[0].id != id {
        forall r | r in rest
          ensures rows[0].id < r.id
        {
          var j :| 0 <= j < |rows[1..]| && rows[1..][j] == r;
          assert rows[j + 1] == r;
        }
        IncreasingCons(rows[0], rest);
      }
    }
  }

  lemma IncreasingCons(x: Row, rest: seq<Row>)
    requires IdsIncreasing(rest)
    requires forall r :: r in rest ==> x.id < r.id
    ensures IdsIncreasing([x] + rest)
  {
    var all := [x] + rest;
    forall i, j | 0 <= i < j < |all|
      ensures all[i].id < all[j].id
    {
      if i == 0 {
        assert all[j] == rest[j - 1];
        assert all[j] in rest;
      } else {
        assert all[i] == rest[i - 1] && all[j] == rest[j - 1];
      }
    }
  }

  /** With unique ids, deleting an id that is present removes exactly one row. */
  lemma {:induction false} RemoveOne(rows: seq<Row>, id: int)
    requires IdsIncreasing(rows)
    requires exists r :: r in rows && r.id == id
    ensures |RemoveId(rows, id)| == |rows| - 1
  {
    if rows[0].id == id {
      forall r | r in rows[1..]
        ensures r.id != id
      {
        var j :| 0 <= j < |rows[1..]| && rows[1..][j] == r;
        assert rows[j + 1] == r;
      }
      RemoveAbsent(rows[1..], id);
    } else {
      var r :| r in rows && r.id == id;
      assert r in rows[1..] by {
        assert rows == [rows[0]] + rows[1..];
      }
      RemoveOne(rows[1..], id);
    }
  }

  /** With unique ids, the author lookup finds the sender of the row with that id. */
  lemma {:induction false} AuthorOfUnique(d: Directory, rows: seq<Row>, id: int, r: Row)
    requires IdsIncreasing(rows)
    requires r in rows && r.id == id && r.userId in d.usernames
    ensures AuthorOf(d, rows, id) == d.usernames[r.userId]
  {
    if rows[0] != r {
      assert r in rows[1..] by {
        assert rows == [rows[0]] + rows[1..];
      }
      var j :| 0 <= j < |rows[1..]| && rows[1..][j] == r;
      assert rows[j + 1] == r;
      AuthorOfUnique(d, rows[1..], id, r);
    }
  }
}
