/**
 * The store of PostGres.cs, with the two tables held in memory as sequences of rows in
 * insertion order. The constraints the generated schema puts on the tables are kept:
 * "BirthdayEntries" is keyed by the message id, and string columns are `character varying(100)`.
 */
module PostGresStore {
  import opened Wrappers
  import opened Models

  /** Why a write is refused by the database (the source sees each as an exception). */
  datatype StoreError =
    | DuplicateKey  // a second row with the same "BirthdayEntries" key
    | ValueTooLong  // a string longer than its character varying(100) column

  /** Width of every `string` column the schema builder emits (except one named "Path"). */
  const VarcharLimit := 100

  predicate FitsColumn(s: string) { |s| <= VarcharLimit }

  // ---------------------------------------------------------------- the encoded date

  /** The parameter GetBirthdays queries with: `(short)(date.Month * 32 + date.Day)`. */
  function DateCode(date: CalendarDate): (code: Short)
    ensures date.Valid() ==> code == date.month * 32 + date.day
  {
    WrapShort(date.month * 32 + date.day)
  }

  /** For a real date the cast never wraps, and month and day can be read back from the code. */
  lemma DateCodeDecodes(date: CalendarDate)
    requires date.Valid()
    ensures DateCode(date) == date.month * 32 + date.day
    ensures DateCode(date) / 32 == date.month && DateCode(date) % 32 == date.day
    ensures 33 <= DateCode(date) <= 415
  {
    var c := date.month * 32 + date.day;
    assert 33 <= c <= 415;
    assert c == 32 * date.month + date.day;
  }

  /** Distinct dates query distinct codes. */
  lemma DateCodeInjective(d1: CalendarDate, d2: CalendarDate)
    requires d1.Valid() && d2.Valid() && DateCode(d1) == DateCode(d2)
    ensures d1 == d2
  {
    DateCodeDecodes(d1);
    DateCodeDecodes(d2);
  }

  /**
   * A stored code whose day part is 0 (this includes every `m:32`, which equals `m+1:0`) or whose
   * month part is outside 1..12 is never queried, so such a birthday is never announced.
   */
  lemma CodeNeverQueried(code: int, date: CalendarDate)
    requires 0 <= code
    requires code % 32 == 0 || code / 32 < 1 || code / 32 > 12
    requires date.Valid()
    ensures DateCode(date) != code
  {
    DateCodeDecodes(date);
  }

  // ---------------------------------------------------------------- the message log

  /** What GetLastMessage's query yields: the greatest Id, or 0 for an empty log. */
  function LastMessageId(entries: seq<BirthdayEntry>): Long
    decreases |entries|
  {
    if entries == [] then 0
    else if |entries| == 1 then entries[0].id
    else
      var rest := LastMessageId(entries[..|entries| - 1]);
      var id := entries[|entries| - 1].id;
      if id > rest then id else rest
  }

  /** The watermark bounds every logged id and is one of them. */
  lemma {:induction false} LastMessageIdIsMaximum(entries: seq<BirthdayEntry>)
    requires entries != []
    ensures forall i :: 0 <= i < |entries| ==> entries[i].id <= LastMessageId(entries)
    ensures exists i :: 0 <= i < |entries| && entries[i].id == LastMessageId(entries)
    decreases |entries|
  {
    if |entries| == 1 {
      assert entries[0].id == LastMessageId(entries);
    } else {
      var init := entries[..|entries| - 1];
      LastMessageIdIsMaximum(init);
      var k :| 0 <= k < |init| && init[k].id == LastMessageId(init);
      assert forall i :: 0 <= i < |init| ==> entries[i] == init[i];
      if entries[|entries| - 1].id > LastMessageId(init) {
        assert entries[|entries| - 1].id == LastMessageId(entries);
      } else {
        assert entries[k].id == LastMessageId(entries);
      }
    }
  }

  /** After an entry is logged the watermark is at least its id, and it never drops. */
  lemma LastMessageIdAfterLog(entries: seq<BirthdayEntry>, e: BirthdayEntry)
    ensures LastMessageId(entries + [e]) >= e.id
    ensures entries != [] ==> LastMessageId(entries + [e]) >= LastMessageId(entries)
  {
    assert (entries + [e])[..|entries|] == entries;
  }

  predicate IdLogged(entries: seq<BirthdayEntry>, id: int)
  {
    exists i :: 0 <= i < |entries| && entries[i].id == id
  }

  /** Why UpsertMessage throws, if it does. */
  function LogError(entries: seq<BirthdayEntry>, e: BirthdayEntry): Option<StoreError>
  {
    if IdLogged(entries, e.id) then Some(DuplicateKey)
    else if !FitsColumn(e.message) then Some(ValueTooLong)
    else None
  }

  // ---------------------------------------------------------------- the birthdays table

  /** A row as GetBirthdays reads it back: only Name and ChatId are selected. */
  function ReadBack(b: Birthday): Birthday
  {
    Birthday(b.name, 0, b.chatId)
  }

  /** What GetBirthdays' query yields for one code, in table order. */
  function BirthdaysOn(table: seq<Birthday>, code: int): seq<Birthday>
    decreases |table|
  {
    if table == [] then []
    else
      var last := table[|table| - 1];
      BirthdaysOn(table[..|table| - 1], code) + (if last.birthDate == code then [ReadBack(last)] else [])
  }

  /** The query is a filter: a row is returned exactly when its code matches. */
  lemma {:induction false} BirthdaysOnMembers(table: seq<Birthday>, code: int, x: Birthday)
    ensures x in BirthdaysOn(table, code)
      <==> exists i :: 0 <= i < |table| && table[i].birthDate == code && x == ReadBack(table[i])
    decreases |table|
  {
    if table != [] {
      var init := table[..|table| - 1];
      BirthdaysOnMembers(init, code, x);
      assert forall i :: 0 <= i < |init| ==> table[i] == init[i];
    }
  }

  /** ... and it keeps table order: filtering distributes over concatenation. */
  lemma {:induction false} BirthdaysOnAppend(a: seq<Birthday>, b: seq<Birthday>, code: int)
    ensures BirthdaysOn(a + b, code) == BirthdaysOn(a, code) + BirthdaysOn(b, code)
    decreases |b|
  {
    if b == [] {
      assert a + b == a;
    } else {
      var b' := b[..|b| - 1];
      BirthdaysOnAppend(a, b', code);
      assert (a + b)[..|a + b| - 1] == a + b';
      assert (a + b)[|a + b| - 1] == b[|b| - 1];
    }
  }

  /** What CheckIfEntryExists' COUNT(*) yields. */
  function Count(table: seq<Birthday>, b: Birthday): nat
    decreases |table|
  {
    if table == [] then 0
    else Count(table[..|table| - 1], b) + (if table[|table| - 1] == b then 1 else 0)
  }

  lemma {:induction false} CountPositiveIffPresent(table: seq<Birthday>, b: Birthday)
    ensures Count(table, b) > 0 <==> b in table
    decreases |table|
  {
    if table != [] {
      var init := table[..|table| - 1];
      CountPositiveIffPresent(init, b);
      assert table == init + [table[|table| - 1]];
    }
  }

  /** No two rows share the (Name, BirthDate, ChatId) triple. */
  predicate NoDuplicateTriples(table: seq<Birthday>)
  {
    forall i, j :: 0 <= i < j < |table| ==> table[i] != table[j]
  }

  /** What UpsertBirthday does: false for a row already present, an exception for an over-long value. */
  function UpsertOutcome(table: seq<Birthday>, b: Birthday): Result<bool, StoreError>
  {
    if b in table then Success(false)
    else if !FitsColumn(b.name) || !FitsColumn(b.chatId) then Failure(ValueTooLong)
    else Success(true)
  }

  function AfterUpsert(table: seq<Birthday>, b: Birthday): seq<Birthday>
  {
    if UpsertOutcome(table, b) == Success(true) then table + [b] else table
  }

  /**
   * Upserting keeps the triples unique, and afterwards a row that was stored is there exactly
   * once, so upserting the same birthday twice leaves a single row.
   */
  lemma {:induction false} UpsertKeepsTriplesUnique(table: seq<Birthday>, b: Birthday)
    requires NoDuplicateTriples(table)
    ensures NoDuplicateTriples(AfterUpsert(table, b))
    ensures UpsertOutcome(table, b).Success? ==> Count(AfterUpsert(table, b), b) == 1
  {
    var t := AfterUpsert(table, b);
    if UpsertOutcome(table, b).Success? {
      assert b in t;
      CountPositiveIffPresent(t, b);
      CountAtMostOne(t, b);
    }
  }

  lemma {:induction false} CountAtMostOne(table: seq<Birthday>, b: Birthday)
    requires NoDuplicateTriples(table)
    ensures Count(table, b) <= 1
    decreases |table|
  {
    if table != [] {
      var init := table[..|table| - 1];
      CountAtMostOne(init, b);
      if table[|table| - 1] == b {
        forall i | 0 <= i < |init| ensures init[i] != b {
          assert table[i] == init[i];
        }
        CountPositiveIffPresent(init, b);
      }
    }
  }

  // ---------------------------------------------------------------- the store object

  class PostGres {
    /** The "Birthdays" table. */
    var birthdays: seq<Birthday>
    /** The "BirthdayEntries" table (the message log). */
    var entries: seq<BirthdayEntry>

    /**
     * A connection to the configured database, which holds whatever earlier runs left in the two
     * tables (empty tables for a fresh database).
     */
    constructor (storedBirthdays: seq<Birthday>, storedEntries: seq<BirthdayEntry>)
      ensures birthdays == storedBirthdays && entries == storedEntries
    {
      birthdays, entries := storedBirthdays, storedEntries;
    }

    /** The watermark: `SELECT "Id" ... ORDER BY "Id" DESC LIMIT 1`, read row by row into returnValue. */
    method GetLastMessage() returns (returnValue: Long)
      ensures returnValue == LastMessageId(entries)
      ensures entries != [] ==> IdLogged(entries, returnValue)
      ensures forall i :: 0 <= i < |entries| ==> entries[i].id <= returnValue
    {
      returnValue := 0;
      for i := 0 to |entries|
        invariant returnValue == LastMessageId(entries[..i])
      {
        assert entries[..i + 1][..i] == entries[..i];
        if i == 0 || entries[i].id > returnValue {
          returnValue := entries[i].id;
        }
      }
      assert entries[..|entries|] == entries;
      if entries != [] {
        LastMessageIdIsMaximum(entries);
      }
    }

    /** The rows whose BirthDate is the date's code, read back as (Name, ChatId). */
    method GetBirthdays(date: CalendarDate) returns (returnValue: seq<Birthday>)
      ensures returnValue == BirthdaysOn(birthdays, DateCode(date))
    {
      var todayShort := DateCode(date);
      returnValue := [];
      for i := 0 to |birthdays|
        invariant returnValue == BirthdaysOn(birthdays[..i], todayShort)
      {
        assert birthdays[..i + 1][..i] == birthdays[..i];
        if birthdays[i].birthDate == todayShort {
          returnValue := returnValue + [ReadBack(birthdays[i])];
        }
      }
      assert birthdays[..|birthdays|] == birthdays;
    }

    /** INSERT into the message log; `Some(error)` where the database refuses the row. */
    method UpsertMessage(entry: BirthdayEntry) returns (error: Option<StoreError>)
      modifies this
      ensures error == LogError(old(entries), entry)
      ensures entries == if error.None? then old(entries) + [entry] else old(entries)
      ensures birthdays == old(birthdays)
    {
      error := LogError(entries, entry);
      if error.None? {
        entries := entries + [entry];
      }
    }

    /** `SELECT COUNT(*)` over rows equal to the triple; true unless the count is 0. */
    method CheckIfEntryExists(b: Birthday) returns (returnValue: bool)
      ensures returnValue <==> b in birthdays
    {
      var dbCount := 0;
      for i := 0 to |birthdays|
        invariant dbCount == Count(birthdays[..i], b)
      {
        assert birthdays[..i + 1][..i] == birthdays[..i];
        if birthdays[i] == b {
          dbCount := dbCount + 1;
        }
      }
      assert birthdays[..|birthdays|] == birthdays;
      CountPositiveIffPresent(birthdays, b);
      returnValue := true;
      if dbCount == 0 {
        returnValue := false;
      }
    }

    /** Check, then insert: false for a duplicate triple, true after appending the row. */
    method UpsertBirthday(b: Birthday) returns (result: Result<bool, StoreError>)
      modifies this
      ensures result == UpsertOutcome(old(birthdays), b)
      ensures birthdays == AfterUpsert(old(birthdays), b)
      ensures entries == old(entries)
      ensures NoDuplicateTriples(old(birthdays)) ==> NoDuplicateTriples(birthdays)
    {
      if NoDuplicateTriples(birthdays) {
        UpsertKeepsTriplesUnique(birthdays, b);
      }
      var present := CheckIfEntryExists(b);
      if !present {
        if !FitsColumn(b.name) || !FitsColumn(b.chatId) {
          return Failure(ValueTooLong);
        }
        birthdays := birthdays + [b];
        return Success(true);
      }
      return Success(false);
    }
  }
}
