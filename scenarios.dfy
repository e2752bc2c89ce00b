/**
 Worked scenarios: two worked listing examples on literal tables, and a
 client that drives the methods and sees only their contracts.
 */
module MessageScenarios {
  import opened MessageSql
  import opened MessageStore

  /** Three messages in "general" (ids 1, 2, 3): the newest two are listed
      newest first, and so are the ones after cursor 1. */
  lemma RoomListingExample()
    ensures var d := Directory(map[], map[], map[7 := "ann"], map[3 := "general"]);
      var rows := [Row(1, 7, None, 3, "m1"), Row(2, 7, None, 3, "m2"), Row(3, 7, None, 3, "m3")];
      var m2, m3 := Message(2, "ann", "", "general", "m2"), Message(3, "ann", "", "general", "m3");
      && Select(FullMessages, d, rows, RoomIs("general"), 2) == [m3, m2]
      && Select(FullMessages, d, rows, NewerInRoom(1, "general"), 10) == [m3, m2]
  {
  }

  /** A says "hi" to B, then B says "hey" to A: either of them lists "hey" then "hi". */
  lemma DirectListingExample()
    ensures var d := Directory(map[], map[], map[1 := "A", 2 := "B"], map[5 := "dm-1"]);
      var rows := [Row(1, 1, Some(2), 5, "hi"), Row(2, 2, Some(1), 5, "hey")];
      var hi, hey := Message(1, "A", "B", "dm-1", "hi"), Message(2, "B", "A", "dm-1", "hey");
      && Select(FullDirectMessages, d, rows, PairIs("A", "B", "B", "A"), 10) == [hey, hi]
      && Select(FullDirectMessages, d, rows, PairIs("B", "A", "A", "B"), 10) == [hey, hi]
  {
  }

  /** A client of the store, reasoning from the method contracts alone. */
  method Client() {
    var d := Directory(map["ann" := Lookup(7, false)], map["general" := 3], map[7 := "ann"], map[3 := "general"]);
    var db := new DatabaseConnection();
    var e := db.AddMessage("m1", "ann", "general", d, false);
    assert e == None;
    e := db.AddMessage("m2", "bob", "general", d, false);
    assert e == Some(UserNotFound("bob")) && |db.rows| == 1;
    e := db.AddMessage("m3", "ann", "general", d, false);
    assert db.rows == [Row(1, 7, None, 3, "m1"), Row(2, 7, None, 3, "m3")];
    var ms, err := db.GetAllMessages("general", 10, d, NoFault);
    assert ms == Select(FullMessages, d, db.rows, RoomIs("general"), 10);
    var newest, oldest := Message(2, "ann", "", "general", "m3"), Message(1, "ann", "", "general", "m1");
    assert db.rows[1..] == [Row(2, 7, None, 3, "m3")] && db.rows[1..][1..] == [];
    assert Kept(FullMessages, d, Row(2, 7, None, 3, "m3"), RoomIs("general")) == [newest];
    assert Kept(FullMessages, d, Row(1, 7, None, 3, "m1"), RoomIs("general")) == [oldest];
    assert Scan(FullMessages, d, db.rows, RoomIs("general")) == [newest, oldest];
    assert ms == [Message(2, "ann", "", "general", "m3"), Message(1, "ann", "", "general", "m1")];
    e := db.DeleteMessageById(2, false);
    e := db.DeleteMessageById(2, false);
    assert e == None && db.rows == [RoomRow(d, 1, "m1", "ann", "general")];
    var n := db.GetMessageCount("general", d, false);
    assert n == 1;
  }
}
