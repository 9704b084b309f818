/**
 * The persistence side of registration: the `players` table, reduced to the
 * columns the dialogue reads or writes, with the unique constraint on the
 * Telegram user id, and the `createPlayer` insert that may fail.
 */
module Players {
  import opened Wrappers

  /** A row of the `players` table. Telegram ids are kept as numbers: the source stores their decimal text, which is one-to-one. */
  datatype Player = Player(id: nat, name: string, telegramUserId: int, telegramChatId: int)

  /** The argument of `createPlayer`. */
  datatype CreatePlayerData = CreatePlayerData(name: string, telegramUserId: int, telegramChatId: int)

  /** Why an insert throws: the unique constraint, or any other database failure. */
  datatype CreateError = DuplicateTelegramUser | DatabaseUnavailable

  datatype CreateResult = Created(player: Player) | Failed(error: CreateError)

  /** The table's rows in insertion order, and the next value of the `serial` id sequence. */
  datatype Table = Table(rows: seq<Player>, nextId: nat)

  predicate HasTelegramUser(rows: seq<Player>, uid: int) {
    exists i :: 0 <= i < |rows| && rows[i].telegramUserId == uid
  }

  /** The table's constraints: `telegram_user_id` is unique, ids are increasing and below the sequence's next value. */
  predicate ValidTable(t: Table) {
    && (forall i, j :: 0 <= i < j < |t.rows| ==> t.rows[i].telegramUserId != t.rows[j].telegramUserId)
    && (forall i, j :: 0 <= i < j < |t.rows| ==> t.rows[i].id < t.rows[j].id)
    && (forall i :: 0 <= i < |t.rows| ==> t.rows[i].id < t.nextId)
  }

  const EmptyTable := Table([], 1)

  /** The table after one `insert ... returning`, and what `createPlayer` returns or throws. */
  datatype Insertion = Insertion(table: Table, result: CreateResult)

  /**
   * One call of `createPlayer(data)`. `unavailable` stands for every failure
   * of the database other than the unique constraint (connection, timeout).
   */
  function Insert(t: Table, data: CreatePlayerData, unavailable: bool): (o: Insertion)
    ensures o.result.Created? <==> !unavailable && !HasTelegramUser(t.rows, data.telegramUserId)
    ensures o.result.Failed? ==> o.table == t
    ensures o.result.Failed? && !unavailable ==> o.result.error == DuplicateTelegramUser
    ensures o.result.Created? ==>
      && o.table.rows == t.rows + [o.result.player]
      && o.result.player.name == data.name
      && o.result.player.telegramUserId == data.telegramUserId
      && o.result.player.telegramChatId == data.telegramChatId
    ensures ValidTable(t) ==> ValidTable(o.table)
  {
    if unavailable then
      Insertion(t, Failed(DatabaseUnavailable))
    else if HasTelegramUser(t.rows, data.telegramUserId) then
      Insertion(t, Failed(DuplicateTelegramUser))
    else
      var p := Player(t.nextId, data.name, data.telegramUserId, data.telegramChatId);
      Insertion(Table(t.rows + [p], t.nextId + 1), Created(p))
  }

  /** `getPlayerByTelegramId`: the first row with the given Telegram user id, if any. */
  function FindByTelegramUserId(rows: seq<Player>, uid: int): (r: Option<Player>)
    ensures r.Some? <==> HasTelegramUser(rows, uid)
    ensures r.Some? ==> r.value in rows && r.value.telegramUserId == uid
  {
    if rows == [] then None
    else if rows[0].telegramUserId == uid then Some(rows[0])
    else
      var r := FindByTelegramUserId(rows[1..], uid);
      assert HasTelegramUser(rows[1..], uid) ==> HasTelegramUser(rows, uid) by {
        if HasTelegramUser(rows[1..], uid) {
          var i :| 0 <= i < |rows[1..]| && rows[1..][i].telegramUserId == uid;
          assert rows[i + 1].telegramUserId == uid;
        }
      }
      r
  }

  /** Appending a row leaves every earlier lookup as it was and makes the new row findable under its own id. */
  lemma {:induction false} FindAfterAppend(rows: seq<Player>, p: Player, uid: int)
    ensures FindByTelegramUserId(rows + [p], uid) ==
      if HasTelegramUser(rows, uid) then FindByTelegramUserId(rows, uid)
      else if p.telegramUserId == uid then Some(p)
      else None
  {
    if rows == [] {
      assert rows + [p] == [p];
    } else {
      assert (rows + [p])[1..] == rows[1..] + [p];
      FindAfterAppend(rows[1..], p, uid);
      if rows[0].telegramUserId != uid {
        assert HasTelegramUser(rows, uid) <==> HasTelegramUser(rows[1..], uid) by {
          if HasTelegramUser(rows, uid) {
            var i :| 0 <= i < |rows| && rows[i].telegramUserId == uid;
            assert i > 0 && rows[1..][i - 1] == rows[i];
          }
        }
      }
    }
  }

  /** After a successful insert the new player is what a lookup by its Telegram user id returns; other lookups are unchanged. */
  lemma CreatedPlayerIsFound(t: Table, data: CreatePlayerData, unavailable: bool, uid: int)
    requires Insert(t, data, unavailable).result.Created?
    ensures var o := Insert(t, data, unavailable);
      FindByTelegramUserId(o.table.rows, uid) ==
        if uid == data.telegramUserId then Some(o.result.player) else FindByTelegramUserId(t.rows, uid)
  {
    var p := Insert(t, data, unavailable).result.player;
    FindAfterAppend(t.rows, p, uid);
  }

  /** The database: one shared table that `createPlayer` inserts into. */
  class PlayerRepository {
    var table: Table

    /** The constraints of the table hold. */
    predicate Valid()
      reads this
    {
      ValidTable(table)
    }

    /** The table created on the first start, when none exists yet. */
    constructor ()
      ensures table == EmptyTable && Valid()
    {
      table := EmptyTable;
    }

    /** A repository over a table that already exists, as on every start after the first. */
    constructor FromTable(t: Table)
      requires ValidTable(t)
      ensures table == t && Valid()
    {
      table := t;
    }

    /** `createPlayer`: inserts one row, or throws and leaves the table as it was. */
    method CreatePlayer(data: CreatePlayerData, unavailable: bool) returns (result: CreateResult)
      requires Valid()
      modifies this
      ensures var o := Insert(old(table), data, unavailable);
        table == o.table && result == o.result
      ensures Valid()
    {
      if unavailable {
        return Failed(DatabaseUnavailable);
      }
      if HasTelegramUser(table.rows, data.telegramUserId) {
        return Failed(DuplicateTelegramUser);
      }
      var p := Player(table.nextId, data.name, data.telegramUserId, data.telegramChatId);
      table := Table(table.rows + [p], table.nextId + 1);
      result := Created(p);
    }
  }
}
