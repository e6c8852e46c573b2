/**
 * Program.cs: the polling loop, the message handler that turns chat lines into stored birthdays,
 * and the daily sweep that announces them. The store is PostGresStore.PostGres and the chat
 * transport is Messaging.MessageContext; the functions below say what one batch, one sweep and
 * one run of cycles do to the observable world (both tables and the outgoing messages).
 */
module BirthdaySystem {
  import opened Wrappers
  import opened Models
  import opened DotNetText
  import opened EntryParser
  import opened PostGresStore
  import opened Messaging
  import opened Scheduler

  const ParseFailureText := "Could not parse message"

  function InsertedText(name: string): string { "Inserted birthday of " + name }

  function TodayText(name: string): string { name + "'s birthday is today" }

  /** Everything the program can be seen to change. */
  datatype World = World(birthdays: seq<Birthday>, entries: seq<BirthdayEntry>, sent: seq<Outgoing>)

  /** What handling one line leaves: the table and the reply sent. */
  datatype LineOutcome = LineOutcome(table: seq<Birthday>, reply: Outgoing)

  /** What handling a run of lines leaves: the table and the replies sent, in order. */
  datatype LinesOutcome = LinesOutcome(table: seq<Birthday>, replies: seq<Outgoing>)

  /** The ids in the message log are distinct (they are its primary key). */
  predicate UniqueIds(entries: seq<BirthdayEntry>)
  {
    forall i, j :: 0 <= i < j < |entries| ==> entries[i].id != entries[j].id
  }

  // ---------------------------------------------------------------- one line

  /** Each line as the parser reads it. */
  function ParseAll(lines: seq<string>): seq<Result<ParsedLine, ParseError>>
  {
    seq(|lines|, i requires 0 <= i < |lines| => ParseLine(lines[i]))
  }

  /**
   * The inner try block for one line from `sender`, given what the parser made of it: the table
   * afterwards and the one reply. A rejected line and a store exception both end in the catch and
   * its failure reply; a stored or already present birthday gets the "Inserted" reply. Rows are
   * only ever added, never removed.
   */
  function HandleLine(table: seq<Birthday>, sender: Int32, parsed: Result<ParsedLine, ParseError>): (r: LineOutcome)
    ensures r.reply.chatId == DecimalString(sender)
  {
    var chat := DecimalString(sender);
    match parsed
    case Failure(_) => LineOutcome(table, Outgoing(ParseFailureText, chat))
    case Success(p) =>
      var b := Birthday(p.name, p.birthDate, chat);
      match UpsertOutcome(table, b)
      case Failure(_) => LineOutcome(table, Outgoing(ParseFailureText, chat))
      case Success(_) => LineOutcome(AfterUpsert(table, b), Outgoing(InsertedText(p.name), chat))
  }

  /** The foreach over the parsed lines of one message: handled in order, one reply each. */
  function HandleLines(table: seq<Birthday>, sender: Int32, lines: seq<Result<ParsedLine, ParseError>>): (r: LinesOutcome)
    ensures |r.replies| == |lines|
    ensures forall k :: 0 <= k < |r.replies| ==> r.replies[k].chatId == DecimalString(sender)
    decreases |lines|
  {
    if lines == [] then LinesOutcome(table, [])
    else
      var before := HandleLines(table, sender, lines[..|lines| - 1]);
      var step := HandleLine(before.table, sender, lines[|lines| - 1]);
      LinesOutcome(step.table, before.replies + [step.reply])
  }

  /** A line adds at most one row, removes none, and never adds a second copy of a row. */
  lemma LineKeepsRows(table: seq<Birthday>, sender: Int32, parsed: Result<ParsedLine, ParseError>)
    ensures var r := HandleLine(table, sender, parsed).table;
      table <= r && |r| <= |table| + 1 && (NoDuplicateTriples(table) ==> NoDuplicateTriples(r))
  {
    if parsed.Success? && NoDuplicateTriples(table) {
      UpsertKeepsTriplesUnique(table, Birthday(parsed.value.name, parsed.value.birthDate, DecimalString(sender)));
    }
  }

  /** The lines of a message only add rows, and never a second copy of a row. */
  lemma {:induction false} LinesKeepRows(table: seq<Birthday>, sender: Int32, lines: seq<Result<ParsedLine, ParseError>>)
    ensures var r := HandleLines(table, sender, lines).table;
      table <= r && (NoDuplicateTriples(table) ==> NoDuplicateTriples(r))
    decreases |lines|
  {
    if lines != [] {
      var before := HandleLines(table, sender, lines[..|lines| - 1]);
      LinesKeepRows(table, sender, lines[..|lines| - 1]);
      LineKeepsRows(before.table, sender, lines[|lines| - 1]);
    }
  }

  /**
   * An accepted line is answered "Inserted birthday of <name>" whether the upsert stores the row or
   * finds it already present; only a value too long for its column gets the failure reply. The
   * table gains the row only when it was not there.
   */
  lemma AcceptedLineReply(table: seq<Birthday>, sender: Int32, p: ParsedLine)
    ensures var chat := DecimalString(sender);
      var b := Birthday(p.name, p.birthDate, chat);
      HandleLine(table, sender, Success(p)) ==
        if b in table then LineOutcome(table, Outgoing(InsertedText(p.name), chat))
        else if FitsColumn(p.name) && FitsColumn(chat) then LineOutcome(table + [b], Outgoing(InsertedText(p.name), chat))
        else LineOutcome(table, Outgoing(ParseFailureText, chat))
  {
  }

  /**
   * The same accepted line handled twice is answered "Inserted birthday of <name>" both times, and
   * the table holds the row exactly once afterwards.
   */
  lemma SameLineTwice(table: seq<Birthday>, sender: Int32, p: ParsedLine)
    requires FitsColumn(p.name) && FitsColumn(DecimalString(sender)) && NoDuplicateTriples(table)
    ensures var chat := DecimalString(sender);
      var first := HandleLine(table, sender, Success(p));
      var second := HandleLine(first.table, sender, Success(p));
      && first.reply == Outgoing(InsertedText(p.name), chat)
      && second.reply == Outgoing(InsertedText(p.name), chat)
      && second.table == first.table
      && Count(second.table, Birthday(p.name, p.birthDate, chat)) == 1
  {
    var b := Birthday(p.name, p.birthDate, DecimalString(sender));
    var first := HandleLine(table, sender, Success(p));
    AcceptedLineReply(table, sender, p);
    assert b in first.table;
    AcceptedLineReply(first.table, sender, p);
    UpsertKeepsTriplesUnique(table, b);
  }

  // ---------------------------------------------------------------- one message, one batch

  /**
   * The outer try block for one message above the watermark. Without a sender the first statement
   * throws and nothing happens; if the log refuses the entry nothing else happens either; otherwise
   * the entry is logged (whatever its text says) and every line of the text is handled.
   */
  function HandleMessage(w: World, m: Inbound): (r: World)
    ensures w.birthdays <= r.birthdays && w.entries <= r.entries && w.sent <= r.sent
    ensures |r.entries| <= |w.entries| + 1
    ensures NoDuplicateTriples(w.birthdays) ==> NoDuplicateTriples(r.birthdays)
    ensures UniqueIds(w.entries) ==> UniqueIds(r.entries)
  {
    match m.sender
    case None => w
    case Some(sender) =>
      var entry := BirthdayEntry(m.messageId, m.text, sender);
      if LogError(w.entries, entry).Some? then w
      else
        var handled := HandleLines(w.birthdays, sender, ParseAll(Lines(m.text)));
        LinesKeepRows(w.birthdays, sender, ParseAll(Lines(m.text)));
        World(handled.table, w.entries + [entry], w.sent + handled.replies)
  }

  /** CheckMessages over one batch, with `watermark` read once before the loop. */
  function ProcessBatch(w: World, watermark: int, batch: seq<Inbound>): (r: World)
    ensures w.birthdays <= r.birthdays && w.entries <= r.entries && w.sent <= r.sent
    ensures NoDuplicateTriples(w.birthdays) ==> NoDuplicateTriples(r.birthdays)
    ensures UniqueIds(w.entries) ==> UniqueIds(r.entries)
    decreases |batch|
  {
    if batch == [] then w
    else
      var before := ProcessBatch(w, watermark, batch[..|batch| - 1]);
      var m := batch[|batch| - 1];
      if m.messageId > watermark then HandleMessage(before, m) else before
  }

  // ---------------------------------------------------------------- the sweep and the loop

  /** One notice per record, in the order the query returned them, each to the record's chat. */
  function Notices(records: seq<Birthday>): (r: seq<Outgoing>)
    ensures |r| == |records|
    ensures forall i :: 0 <= i < |r| ==> r[i].chatId == records[i].chatId && r[i].text == TodayText(records[i].name)
  {
    seq(|records|, i requires 0 <= i < |records| => Outgoing(TodayText(records[i].name), records[i].chatId))
  }

  /** SendOutBirthdayNotifications on the day `today`. */
  function Sweep(w: World, today: CalendarDate): (r: World)
    ensures r.birthdays == w.birthdays && r.entries == w.entries && w.sent <= r.sent
    ensures |r.sent| == |w.sent| + |BirthdaysOn(w.birthdays, DateCode(today))|
  {
    w.(sent := w.sent + Notices(BirthdaysOn(w.birthdays, DateCode(today))))
  }

  /** One pass of Run's loop: the clock reading, the day it falls on and the updates read. */
  datatype Cycle = Cycle(now: int, today: CalendarDate, batch: seq<Inbound>)

  function Nows(cycles: seq<Cycle>): seq<int>
  {
    seq(|cycles|, i requires 0 <= i < |cycles| => cycles[i].now)
  }

  /** One pass of Run's loop body, given the value of `future` at its start. */
  function CycleStep(w: World, future: int, c: Cycle): (r: World)
    ensures w.birthdays <= r.birthdays && w.entries <= r.entries && w.sent <= r.sent
    ensures NoDuplicateTriples(w.birthdays) ==> NoDuplicateTriples(r.birthdays)
    ensures UniqueIds(w.entries) ==> UniqueIds(r.entries)
  {
    var swept := if Due(c.now, future) then Sweep(w, c.today) else w;
    ProcessBatch(swept, LastMessageId(swept.entries), c.batch)
  }

  lemma NowsStep(cycles: seq<Cycle>, i: int)
    requires 0 <= i < |cycles|
    ensures cycles[..i + 1][..i] == cycles[..i]
    ensures Nows(cycles[..i + 1]) == Nows(cycles[..i]) + [cycles[i].now]
    ensures Nows(cycles[..i + 1])[..i] == Nows(cycles[..i])
  {
    assert cycles[..i + 1][..i] == cycles[..i];
    assert Nows(cycles[..i + 1]) == Nows(cycles[..i]) + [cycles[i].now];
  }

  /** Run's loop over a finite run of cycles, starting from `future`. */
  function RunCycles(w: World, future: int, cycles: seq<Cycle>): (r: World)
    ensures w.birthdays <= r.birthdays && w.entries <= r.entries && w.sent <= r.sent
    ensures NoDuplicateTriples(w.birthdays) ==> NoDuplicateTriples(r.birthdays)
    ensures UniqueIds(w.entries) ==> UniqueIds(r.entries)
    decreases |cycles|
  {
    if cycles == [] then w
    else
      var init := cycles[..|cycles| - 1];
      var c := cycles[|cycles| - 1];
      CycleStep(RunCycles(w, future, init), FutureAfter(future, Nows(init)), c)
  }

  // ---------------------------------------------------------------- properties of a batch

  /** Lines compose: handling `a + b` is handling `a` and then `b` on the resulting table. */
  lemma {:induction false} HandleLinesAppend(table: seq<Birthday>, sender: Int32, a: seq<Result<ParsedLine, ParseError>>, b: seq<Result<ParsedLine, ParseError>>)
    ensures var first := HandleLines(table, sender, a);
      var second := HandleLines(first.table, sender, b);
      HandleLines(table, sender, a + b) == LinesOutcome(second.table, first.replies + second.replies)
    decreases |b|
  {
    if b == [] {
      assert a + b == a;
    } else {
      var b' := b[..|b| - 1];
      var last := b[|b| - 1];
      var ab := a + b;
      assert ab[..|ab| - 1] == a + b';
      assert ab[|ab| - 1] == last;
      var first := HandleLines(table, sender, a);
      var second' := HandleLines(first.table, sender, b');
      var prev := HandleLines(table, sender, a + b');
      HandleLinesAppend(table, sender, a, b');
      assert prev.table == second'.table;
      var step := HandleLine(prev.table, sender, last);
      calc {
        HandleLines(table, sender, ab);
        LinesOutcome(step.table, prev.replies + [step.reply]);
        { assert prev.replies + [step.reply] == first.replies + (second'.replies + [step.reply]); }
        LinesOutcome(step.table, first.replies + (second'.replies + [step.reply]));
        { assert HandleLines(first.table, sender, b) == LinesOutcome(step.table, second'.replies + [step.reply]); }
        LinesOutcome(HandleLines(first.table, sender, b).table, first.replies + HandleLines(first.table, sender, b).replies);
      }
    }
  }

  /**
   * Reply k answers line k alone, on the table left by the lines before it; a rejected line gets the
   * failure reply and leaves the table as it was.
   */
  lemma {:induction false} ReplyPerLine(table: seq<Birthday>, sender: Int32, lines: seq<Result<ParsedLine, ParseError>>, k: int)
    requires 0 <= k < |lines|
    ensures var before := HandleLines(table, sender, lines[..k]).table;
      HandleLines(table, sender, lines).replies[k] == HandleLine(before, sender, lines[k]).reply
      && HandleLines(table, sender, lines[..k + 1]).table == HandleLine(before, sender, lines[k]).table
    ensures lines[k].Failure? ==>
      HandleLines(table, sender, lines).replies[k] == Outgoing(ParseFailureText, DecimalString(sender))
      && HandleLines(table, sender, lines[..k + 1]).table == HandleLines(table, sender, lines[..k]).table
  {
    HandleLinesAppend(table, sender, lines[..k + 1], lines[k + 1..]);
    assert lines[..k + 1] + lines[k + 1..] == lines;
    assert lines[..k + 1][..k] == lines[..k];
  }

  /** A text ending in a line feed has an empty last line, which is rejected with the failure reply. */
  lemma TrailingLineFeedRejected(table: seq<Birthday>, sender: Int32, text: string)
    requires text != [] && text[|text| - 1] == '\n'
    ensures var replies := HandleLines(table, sender, ParseAll(Lines(text))).replies;
      replies[|replies| - 1] == Outgoing(ParseFailureText, DecimalString(sender))
  {
    var lines := Lines(text);
    TrailingLineBreakGivesEmptyLine(text);
    EmptyLineRejected();
    ReplyPerLine(table, sender, ParseAll(lines), |lines| - 1);
  }

  /**
   * A handled message with a sender gets one reply per line of its normalised text, all addressed
   * to the sender; one the log refuses gets none.
   */
  lemma RepliesGoToSender(w: World, m: Inbound)
    requires m.sender.Some?
    ensures var r := HandleMessage(w, m);
      var logged := LogError(w.entries, BirthdayEntry(m.messageId, m.text, m.sender.value)).None?;
      && |r.sent| - |w.sent| == (if logged then 1 + Occurrences(m.text, '\n') else 0)
      && (forall k :: |w.sent| <= k < |r.sent| ==> r.sent[k].chatId == DecimalString(m.sender.value))
  {
    var r := HandleMessage(w, m);
    if LogError(w.entries, BirthdayEntry(m.messageId, m.text, m.sender.value)).None? {
      var replies := HandleLines(w.birthdays, m.sender.value, ParseAll(Lines(m.text))).replies;
      assert r.sent == w.sent + replies;
      forall k | |w.sent| <= k < |r.sent| ensures r.sent[k].chatId == DecimalString(m.sender.value) {
        assert r.sent[k] == replies[k - |w.sent|];
      }
    }
  }

  /** A batch whose messages are all at or below the watermark changes nothing. */
  lemma {:induction false} AtOrBelowWatermarkIgnored(w: World, watermark: int, batch: seq<Inbound>)
    requires forall i :: 0 <= i < |batch| ==> batch[i].messageId <= watermark
    ensures ProcessBatch(w, watermark, batch) == w
    decreases |batch|
  {
    if batch != [] {
      AtOrBelowWatermarkIgnored(w, watermark, batch[..|batch| - 1]);
    }
  }

  /** The messages of a batch above the watermark, in order. */
  function AboveWatermark(watermark: int, batch: seq<Inbound>): (r: seq<Inbound>)
    ensures forall i :: 0 <= i < |r| ==> r[i].messageId > watermark
    decreases |batch|
  {
    if batch == [] then []
    else
      var m := batch[|batch| - 1];
      AboveWatermark(watermark, batch[..|batch| - 1]) + (if m.messageId > watermark then [m] else [])
  }

  /**
   * Messages at or below the watermark contribute nothing, wherever they sit in a batch: the batch
   * has the effect of its messages above the watermark alone.
   */
  lemma {:induction false} OnlyAboveWatermarkCounts(w: World, watermark: int, batch: seq<Inbound>)
    ensures ProcessBatch(w, watermark, batch) == ProcessBatch(w, watermark, AboveWatermark(watermark, batch))
    decreases |batch|
  {
    if batch != [] {
      var init := batch[..|batch| - 1];
      var m := batch[|batch| - 1];
      var kept := AboveWatermark(watermark, init);
      OnlyAboveWatermarkCounts(w, watermark, init);
      var before := ProcessBatch(w, watermark, init);
      if m.messageId > watermark {
        var grown := kept + [m];
        assert AboveWatermark(watermark, batch) == grown;
        assert grown[..|grown| - 1] == kept;
        assert ProcessBatch(w, watermark, grown) == HandleMessage(ProcessBatch(w, watermark, kept), m);
        assert ProcessBatch(w, watermark, batch) == HandleMessage(before, m);
      } else {
        assert AboveWatermark(watermark, batch) == kept;
        assert ProcessBatch(w, watermark, batch) == before;
      }
    }
  }

  /** A batch of messages each of which leaves `w` as it is leaves `w` as it is. */
  lemma {:induction false} FixedPointBatch(w: World, watermark: int, batch: seq<Inbound>)
    requires forall i :: 0 <= i < |batch| && batch[i].messageId > watermark ==> HandleMessage(w, batch[i]) == w
    ensures ProcessBatch(w, watermark, batch) == w
    decreases |batch|
  {
    if batch != [] {
      FixedPointBatch(w, watermark, batch[..|batch| - 1]);
    }
  }

  /** A message with a sender whose entry the log does not refuse adds exactly that entry. */
  lemma MessageEntry(w: World, m: Inbound)
    ensures var r := HandleMessage(w, m);
      r.entries == w.entries
      || (m.sender.Some? && r.entries == w.entries + [BirthdayEntry(m.messageId, m.text, m.sender.value)])
    ensures m.sender.Some? && FitsColumn(m.text) ==> IdLogged(HandleMessage(w, m).entries, m.messageId)
  {
    var r := HandleMessage(w, m);
    if m.sender.Some? && FitsColumn(m.text) {
      if IdLogged(w.entries, m.messageId) {
        var k :| 0 <= k < |w.entries| && w.entries[k].id == m.messageId;
        assert r.entries[k] == w.entries[k];
      } else {
        assert r.entries[|w.entries|].id == m.messageId;
      }
    }
  }

  /** An id in the log stays there as the log grows. */
  lemma StaysLogged(entries: seq<BirthdayEntry>, grown: seq<BirthdayEntry>, id: int)
    requires entries <= grown && IdLogged(entries, id)
    ensures IdLogged(grown, id)
  {
    var k :| 0 <= k < |entries| && entries[k].id == id;
    assert grown[k] == entries[k];
  }

  /** Every entry a batch adds lies above the watermark. */
  lemma {:induction false} NewEntriesAboveWatermark(w: World, watermark: int, batch: seq<Inbound>)
    ensures forall i :: |w.entries| <= i < |ProcessBatch(w, watermark, batch).entries| ==>
      ProcessBatch(w, watermark, batch).entries[i].id > watermark
    decreases |batch|
  {
    if batch != [] {
      var m := batch[|batch| - 1];
      var before := ProcessBatch(w, watermark, batch[..|batch| - 1]);
      NewEntriesAboveWatermark(w, watermark, batch[..|batch| - 1]);
      var r := ProcessBatch(w, watermark, batch);
      if m.messageId > watermark {
        MessageEntry(before, m);
        assert r == HandleMessage(before, m);
      } else {
        assert r == before;
      }
      forall i | |w.entries| <= i < |r.entries| ensures r.entries[i].id > watermark {
        if i < |before.entries| {
          assert before.entries[i].id > watermark;
          assert r.entries[i] == before.entries[i];
        } else {
          assert m.messageId > watermark;
          assert m.sender.Some? && r.entries == before.entries + [BirthdayEntry(m.messageId, m.text, m.sender.value)];
          assert r.entries[i].id == m.messageId;
        }
      }
    }
  }

  /**
   * Every message above the watermark with a sender and a text that fits its column is in the
   * log after the batch (logged by this batch, or already before).
   */
  lemma {:induction false} HandledMessagesLogged(w: World, watermark: int, batch: seq<Inbound>)
    ensures var r := ProcessBatch(w, watermark, batch);
      forall i :: (0 <= i < |batch| && batch[i].messageId > watermark && batch[i].sender.Some?
        && FitsColumn(batch[i].text)) ==> IdLogged(r.entries, batch[i].messageId)
    decreases |batch|
  {
    if batch != [] {
      var init := batch[..|batch| - 1];
      var m := batch[|batch| - 1];
      var before := ProcessBatch(w, watermark, init);
      HandledMessagesLogged(w, watermark, init);
      var r := ProcessBatch(w, watermark, batch);
      forall i | 0 <= i < |batch| && batch[i].messageId > watermark && batch[i].sender.Some? && FitsColumn(batch[i].text)
        ensures IdLogged(r.entries, batch[i].messageId)
      {
        if i < |init| {
          assert init[i] == batch[i];
          StaysLogged(before.entries, r.entries, batch[i].messageId);
        } else {
          MessageEntry(before, m);
        }
      }
    }
  }

  /** Some logged id is at least any given logged id, so the watermark only rises as the log grows. */
  lemma WatermarkRises(entries: seq<BirthdayEntry>, more: seq<BirthdayEntry>, watermark: int)
    requires watermark == LastMessageId(entries)
    requires forall i :: |entries| <= i < |entries + more| ==> (entries + more)[i].id > watermark
    ensures LastMessageId(entries + more) >= watermark
  {
    var all := entries + more;
    if entries != [] {
      LastMessageIdIsMaximum(entries);
      var k :| 0 <= k < |entries| && entries[k].id == watermark;
      LastMessageIdIsMaximum(all);
      assert all[k] == entries[k];
    } else if more != [] {
      LastMessageIdIsMaximum(all);
      assert all[0].id > watermark;
    }
  }

  /**
   * Reading the same updates again after a pass with the watermark read from the log is a no-op:
   * no row is added, nothing is logged and no reply is sent twice.
   */
  lemma SecondPassIsNoOp(w: World, batch: seq<Inbound>)
    ensures var w' := ProcessBatch(w, LastMessageId(w.entries), batch);
      ProcessBatch(w', LastMessageId(w'.entries), batch) == w'
  {
    var watermark := LastMessageId(w.entries);
    var w' := ProcessBatch(w, watermark, batch);
    HandledMessagesLogged(w, watermark, batch);
    NewEntriesAboveWatermark(w, watermark, batch);
    var more := w'.entries[|w.entries|..];
    assert w'.entries == w.entries + more;
    assert forall i :: |w.entries| <= i < |w.entries + more| ==> (w.entries + more)[i].id > watermark;
    WatermarkRises(w.entries, more, watermark);
    var watermark' := LastMessageId(w'.entries);
    forall i | 0 <= i < |batch| && batch[i].messageId > watermark' ensures HandleMessage(w', batch[i]) == w' {
      RefusedMessage(w', batch[i]);
    }
    FixedPointBatch(w', watermark', batch);
  }

  /**
   * The same one-line entry sent twice, in two messages from one sender, is answered "Inserted
   * birthday of <name>" both times; the second adds no row, and the row is stored exactly once.
   * A formatted entry `m:d:name` is such a text (FormattedEntryIsOneLine, FormatLineRoundTrip).
   */
  lemma RepeatedLineStillInserted(w: World, sender: Int32, first: Long, second: Long, text: string, p: ParsedLine)
    requires Lines(text) == [text] && ParseLine(text) == Success(p)
    requires FitsColumn(text) && FitsColumn(p.name) && FitsColumn(DecimalString(sender))
    requires first != second && !IdLogged(w.entries, first) && !IdLogged(w.entries, second)
    requires NoDuplicateTriples(w.birthdays)
    ensures var once := HandleMessage(w, Inbound(first, Some(sender), text));
      var twice := HandleMessage(once, Inbound(second, Some(sender), text));
      var reply := Outgoing(InsertedText(p.name), DecimalString(sender));
      && once.sent == w.sent + [reply]
      && twice.sent == once.sent + [reply]
      && twice.birthdays == once.birthdays
      && Count(twice.birthdays, Birthday(p.name, p.birthDate, DecimalString(sender))) == 1
  {
    assert ParseAll(Lines(text)) == [Success(p)];
    var once := HandleMessage(w, Inbound(first, Some(sender), text));
    SingleLineMessage(w, Inbound(first, Some(sender), text), p);
    OtherIdStillFree(w.entries, BirthdayEntry(first, text, sender), second);
    SingleLineMessage(once, Inbound(second, Some(sender), text), p);
    SameLineTwice(w.birthdays, sender, p);
  }

  /** A formatted entry whose name has no line feed is a single line. */
  lemma FormattedEntryIsOneLine(month: int, day: int, name: string)
    requires '\n' !in name
    ensures Lines(FormatLine(month, day, name)) == [FormatLine(month, day, name)]
  {
    var m, d := DecimalString(month), DecimalString(day);
    assert FormatLine(month, day, name) == m + ":" + d + ":" + name;
    assert '\n' !in m && '\n' !in d;
    SingleLine(FormatLine(month, day, name));
  }

  /** Logging one entry leaves every other id free. */
  lemma OtherIdStillFree(entries: seq<BirthdayEntry>, e: BirthdayEntry, id: int)
    requires !IdLogged(entries, id) && e.id != id
    ensures !IdLogged(entries + [e], id)
  {
    var grown := entries + [e];
    forall k | 0 <= k < |grown| ensures grown[k].id != id {
      if k < |entries| {
        assert grown[k] == entries[k];
      }
    }
  }

  /** A logged message of one accepted line does what that line does, and logs its entry. */
  lemma SingleLineMessage(w: World, m: Inbound, p: ParsedLine)
    requires m.sender.Some? && ParseAll(Lines(m.text)) == [Success(p)]
    requires LogError(w.entries, BirthdayEntry(m.messageId, m.text, m.sender.value)).None?
    ensures var outcome := HandleLine(w.birthdays, m.sender.value, Success(p));
      HandleMessage(w, m) == World(outcome.table, w.entries + [BirthdayEntry(m.messageId, m.text, m.sender.value)], w.sent + [outcome.reply])
  {
    var sender := m.sender.value;
    var lines := ParseAll(Lines(m.text));
    assert lines[..0] == [];
    var outcome := HandleLine(w.birthdays, sender, Success(p));
    assert HandleLines(w.birthdays, sender, lines) == LinesOutcome(outcome.table, [outcome.reply]);
  }

  /** A message whose id is already logged, or whose text cannot be logged, changes nothing. */
  lemma RefusedMessage(w: World, m: Inbound)
    requires m.sender.Some? && FitsColumn(m.text) ==> IdLogged(w.entries, m.messageId)
    ensures HandleMessage(w, m) == w
  {
    if m.sender.Some? {
      var entry := BirthdayEntry(m.messageId, m.text, m.sender.value);
      assert LogError(w.entries, entry).Some?;
    }
  }

  // ---------------------------------------------------------------- properties of the sweep

  /** Every notice of a sweep announces a stored row whose code is today's, to that row's chat. */
  lemma NoticeHasStoredRow(w: World, today: CalendarDate, k: int)
    requires 0 <= k < |Notices(BirthdaysOn(w.birthdays, DateCode(today)))|
    ensures exists i :: (0 <= i < |w.birthdays| && w.birthdays[i].birthDate == DateCode(today)
      && Notices(BirthdaysOn(w.birthdays, DateCode(today)))[k]
         == Outgoing(TodayText(w.birthdays[i].name), w.birthdays[i].chatId))
  {
    var records := BirthdaysOn(w.birthdays, DateCode(today));
    BirthdaysOnMembers(w.birthdays, DateCode(today), records[k]);
  }

  /** Every stored row whose code is today's is announced by the sweep, to its own chat. */
  lemma StoredRowIsAnnounced(w: World, today: CalendarDate, i: int)
    requires 0 <= i < |w.birthdays| && w.birthdays[i].birthDate == DateCode(today)
    ensures Outgoing(TodayText(w.birthdays[i].name), w.birthdays[i].chatId)
      in Notices(BirthdaysOn(w.birthdays, DateCode(today)))
  {
    var records := BirthdaysOn(w.birthdays, DateCode(today));
    BirthdaysOnMembers(w.birthdays, DateCode(today), ReadBack(w.birthdays[i]));
    var k :| 0 <= k < |records| && records[k] == ReadBack(w.birthdays[i]);
    assert Notices(records)[k] == Outgoing(TodayText(w.birthdays[i].name), w.birthdays[i].chatId);
  }

  /**
   * A line the parser accepts with day 0 or 32, or with a month that is 0 modulo 2048, stores a
   * code no real date has, so its birthday is never announced.
   */
  lemma NeverAnnounced(line: string, today: CalendarDate)
    requires ParseLine(line).Success?
    requires var f := Split(line, ':');
      ParseShort(f[1]).value == 0 || ParseShort(f[1]).value == 32 || ParseShort(f[0]).value % 2048 == 0
    requires today.Valid()
    ensures ParseLine(line).value.birthDate != DateCode(today)
  {
    LineAccepted(line);
    var f := Split(line, ':');
    UnusedCode(ParseShort(f[0]).value % 2048, ParseShort(f[1]).value, today);
  }

  /** The code of month 0, or of day 0 or 32, is never a real date's code. */
  lemma UnusedCode(month: int, day: int, today: CalendarDate)
    requires 0 <= month <= 12 && 0 <= day <= 32
    requires day == 0 || day == 32 || month == 0
    requires today.Valid()
    ensures month * 32 + day != DateCode(today)
  {
    var code := month * 32 + day;
    if day == 0 {
      assert code % 32 == 0;
    } else if day == 32 {
      assert code == (month + 1) * 32;
    } else {
      assert code / 32 == 0;
    }
    CodeNeverQueried(code, today);
  }

  // ---------------------------------------------------------------- the program object

  class Program {
    const databaseContext: PostGres
    const messageContext: MessageContext

    /** Init, given the store and the transport it builds. */
    constructor (db: PostGres, transport: MessageContext)
      ensures databaseContext == db && messageContext == transport
    {
      databaseContext := db;
      messageContext := transport;
    }

    ghost function State(): World
      reads databaseContext, messageContext
    {
      World(databaseContext.birthdays, databaseContext.entries, messageContext.sent)
    }

    method SendOutBirthdayNotifications(today: CalendarDate)
      modifies messageContext
      ensures State() == Sweep(old(State()), today)
    {
      var birthdays := databaseContext.GetBirthdays(today);
      for k := 0 to |birthdays|
        invariant messageContext.sent == old(messageContext.sent) + Notices(birthdays[..k])
      {
        messageContext.SendMessage(TodayText(birthdays[k].name), birthdays[k].chatId);
        assert Notices(birthdays[..k + 1]) == Notices(birthdays[..k]) + [Outgoing(TodayText(birthdays[k].name), birthdays[k].chatId)];
      }
      assert birthdays[..|birthdays|] == birthdays;
    }

    /** The lines of one logged message from `sender`, each in its own try block. */
    method HandleMessageLines(sender: Int32, text: string)
      modifies databaseContext, messageContext
      ensures var handled := HandleLines(old(databaseContext.birthdays), sender, ParseAll(Lines(text)));
        databaseContext.birthdays == handled.table && messageContext.sent == old(messageContext.sent) + handled.replies
      ensures databaseContext.entries == old(databaseContext.entries)
    {
      var senderId := sender;
      var lines := Lines(text);
      ghost var parsedLines := ParseAll(lines);
      for j := 0 to |lines|
        invariant var handled := HandleLines(old(databaseContext.birthdays), sender, parsedLines[..j]);
          databaseContext.birthdays == handled.table && messageContext.sent == old(messageContext.sent) + handled.replies
        invariant databaseContext.entries == old(databaseContext.entries)
      {
        assert parsedLines[..j + 1][..j] == parsedLines[..j];
        HandleOneLine(senderId, lines[j]);
      }
      assert parsedLines[..|lines|] == parsedLines;
    }

    /** The inner try block: parse one line, upsert the birthday, reply. */
    method HandleOneLine(senderId: Int32, line: string)
      modifies databaseContext, messageContext
      ensures var outcome := HandleLine(old(databaseContext.birthdays), senderId, ParseLine(line));
        databaseContext.birthdays == outcome.table && messageContext.sent == old(messageContext.sent) + [outcome.reply]
      ensures databaseContext.entries == old(databaseContext.entries)
    {
      var parsed := ParseLine(line);
      if parsed.Failure? {
        messageContext.SendMessage(ParseFailureText, DecimalString(senderId));
      } else {
        var tempBirthday := Birthday(parsed.value.name, parsed.value.birthDate, DecimalString(senderId));
        var outcome := databaseContext.UpsertBirthday(tempBirthday);
        if outcome.Failure? {
          messageContext.SendMessage(ParseFailureText, DecimalString(senderId));
        } else {
          messageContext.SendMessage(InsertedText(tempBirthday.name), DecimalString(senderId));
        }
      }
    }

    /** The outer try block for one message above the watermark. */
    method HandleOneMessage(message: Inbound)
      modifies databaseContext, messageContext
      ensures State() == HandleMessage(old(State()), message)
    {
      if message.sender.Some? {
        var senderId := message.sender.value;
        var tempBirthdayEntry := BirthdayEntry(message.messageId, message.text, senderId);
        var error := databaseContext.UpsertMessage(tempBirthdayEntry);
        if error.None? {
          HandleMessageLines(senderId, message.text);
        }
      }
    }

    method CheckMessages(messages: seq<Inbound>)
      modifies databaseContext, messageContext
      ensures State() == ProcessBatch(old(State()), LastMessageId(old(databaseContext.entries)), messages)
    {
      var lastMessageId := databaseContext.GetLastMessage();
      for i := 0 to |messages|
        invariant State() == ProcessBatch(old(State()), lastMessageId, messages[..i])
      {
        assert messages[..i + 1][..i] == messages[..i];
        if messages[i].messageId > lastMessageId {
          HandleOneMessage(messages[i]);
        }
      }
      assert messages[..|messages|] == messages;
    }

    /** A finite prefix of Run's endless loop; `fires` records the clock readings that swept. */
    method Run(cycles: seq<Cycle>) returns (ghost fires: seq<int>)
      modifies databaseContext, messageContext
      ensures State() == RunCycles(old(State()), MinValue, cycles)
      ensures fires == FireTimes(MinValue, Nows(cycles))
    {
      var future := MinValue;
      fires := [];
      for i := 0 to |cycles|
        invariant State() == RunCycles(old(State()), MinValue, cycles[..i])
        invariant future == FutureAfter(MinValue, Nows(cycles[..i]))
        invariant fires == FireTimes(MinValue, Nows(cycles[..i]))
      {
        NowsStep(cycles, i);
        var past := cycles[i].now;
        if past > future {
          SendOutBirthdayNotifications(cycles[i].today);
          future := NextFuture(past);
          fires := fires + [past];
        }
        CheckMessages(cycles[i].batch);
      }
      assert cycles[..|cycles|] == cycles;
    }
  }
}
