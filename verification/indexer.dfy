/** The channel indexing run: a fold over the messages the channel
    delivers, interleaved with `/cancel` requests, that appends each new
    media file to the category's catalog, counts the new records and emits
    progress and terminal notices. */
module Indexer {
  import opened Wrappers
  import opened Records
  import opened Session

  datatype Category = Movies | TvShows {
    function Other(): Category {
      if this == Movies then TvShows else Movies
    }
  }

  /** The two configured channel ids. */
  datatype Config = Config(movieChannel: int, tvChannel: int)

  /** The movie channel feeds the movies catalog, every other chat the
      TV-show catalog. */
  function CategoryOf(cfg: Config, chat: int): (c: Category)
    ensures c == Movies <==> chat == cfg.movieChannel
  {
    if chat == cfg.movieChannel then Movies else TvShows
  }

  /** The two catalog files, `movies.json` and `tvshows.json`. */
  datatype Db = Db(movies: Catalog, tvshows: Catalog) {
    function Get(c: Category): Catalog {
      if c == Movies then movies else tvshows
    }

    function Put(c: Category, items: Catalog): (d: Db)
      ensures d.Get(c) == items && d.Get(c.Other()) == Get(c.Other())
    {
      if c == Movies then this.(movies := items) else this.(tvshows := items)
    }
  }

  /** A progress notice is due whenever the counter is a multiple of this. */
  const ProgressEvery := 20

  /** What the run observes, in order: a message slot from the channel
      (empty when the slot holds no message), or a `/cancel` command handled
      between two messages. */
  datatype Event = Delivered(msg: Option<Message>) | CancelRequested

  /** The edits made to the run's status message. */
  datatype Notice =
    | Progress(category: Category, found: nat)
    | CompletedNotice(found: nat)
    | CanceledNotice

  /** Failed is the attribute error raised by a media message that has
      neither a document nor a video; it ends the run with no notice. */
  datatype Outcome = Completed | Canceled | Failed

  /** Where a run stopped: the catalog, the counter, the shared status and
      the notices emitted, in order. */
  datatype Run = Run(items: Catalog, found: nat, status: IndexStatus, notices: seq<Notice>, outcome: Outcome)

  /** Absent messages and messages without media are passed over. */
  predicate Skipped(m: Option<Message>) {
    m.None? || !m.value.hasMedia
  }

  /** The terminal notice, if any, is the last one and matches the outcome;
      every other notice is a progress notice for the category at a
      multiple of 20 between the starting and the final counter. */
  ghost predicate WellFormedNotices(cat: Category, found: nat, r: Run) {
    && (r.outcome == Completed ==> |r.notices| > 0 && r.notices[|r.notices| - 1] == CompletedNotice(r.found))
    && (r.outcome == Canceled ==> |r.notices| > 0 && r.notices[|r.notices| - 1] == CanceledNotice)
    && (forall i :: 0 <= i < |r.notices| && !r.notices[i].Progress? ==>
          i == |r.notices| - 1 && r.outcome != Failed)
    && (forall i :: 0 <= i < |r.notices| && r.notices[i].Progress? ==>
          r.notices[i].category == cat && r.notices[i].found % ProgressEvery == 0 &&
          found <= r.notices[i].found <= r.found)
  }

  /** Where one event leaves the run: going on with a new catalog, counter
      and status after emitting some notices, or stopped. */
  datatype Step =
    | Continue(items: Catalog, found: nat, status: IndexStatus, emitted: seq<Notice>)
    | Stop(run: Run)

  /** One turn of the run's `async for` loop: the cancel check, the media
      check, the extraction, the duplicate-checked append, the counter and
      the progress test. */
  function Advance(cat: Category, items: Catalog, found: nat, status: IndexStatus, e: Event): (s: Step)
    ensures s.Continue? ==> items <= s.items && found <= s.found && s.found <= found + 1
    ensures s.Continue? ==> |s.items| == |items| + (s.found - found)
    ensures s.Continue? ==> (NoDuplicateIds(items) ==> NoDuplicateIds(s.items))
    ensures s.Continue? ==> s.status.current == status.current && (status.cancel ==> s.status.cancel)
    ensures s.Continue? ==> forall n :: n in s.emitted ==> n == Progress(cat, s.found) && s.found % ProgressEvery == 0
    ensures s.Stop? ==> s.run.items == items && s.run.found == found && s.run.status == status
    ensures s.Stop? ==> s.run.outcome != Completed
    ensures s.Stop? && s.run.outcome == Canceled ==> status.cancel && s.run.notices == [CanceledNotice]
    ensures s.Stop? && s.run.outcome == Failed ==> s.run.notices == []
    ensures e.CancelRequested? ==> s == Continue(items, found, RequestCancel(status), [])
    ensures e.Delivered? && status.cancel ==> s.Stop? && s.run.outcome == Canceled
    ensures e.Delivered? && !status.cancel && Skipped(e.msg) ==> s == Continue(items, found, status, [])
    ensures !status.cancel && BareMedia(e) ==> s.Stop? && s.run.outcome == Failed
    ensures e.Delivered? && !status.cancel && !Skipped(e.msg) && HasFile(e.msg.value) ==>
              && s.Continue?
              && s.items == AddIfNew(items, Extract(e.msg.value).value)
              && (s.emitted == [Progress(cat, s.found)] <==> s.found % ProgressEvery == 0)
              && (s.emitted == [] <==> s.found % ProgressEvery != 0)
  {
    match e
    case CancelRequested =>
      Continue(items, found, RequestCancel(status), [])
    case Delivered(m) =>
      if status.cancel then
        Stop(Run(items, found, status, [CanceledNotice], Canceled))
      else if Skipped(m) then
        Continue(items, found, status, [])
      else
        match Extract(m.value)
        case None =>
          Stop(Run(items, found, status, [], Failed))
        case Some(rec) =>
          var items' := AddIfNew(items, rec);
          var found' := if |items'| == |items| + 1 then found + 1 else found;
          Continue(items', found', status, if found' % ProgressEvery == 0 then [Progress(cat, found')] else [])
  }

  /** The run's `async for` loop from a given catalog, counter and status
      onwards; it completes when the channel has no more messages. */
  function Sweep(cat: Category, items: Catalog, found: nat, status: IndexStatus, events: seq<Event>): (r: Run)
    ensures items <= r.items
    ensures found <= r.found && |r.items| == |items| + (r.found - found)
    ensures NoDuplicateIds(items) ==> NoDuplicateIds(r.items)
    ensures r.status.current == status.current
    ensures status.cancel ==> r.status.cancel
    ensures r.outcome == Canceled ==> r.status.cancel
    ensures WellFormedNotices(cat, found, r)
    ensures forall k :: found < k <= r.found && k % ProgressEvery == 0 ==> Progress(cat, k) in r.notices
    ensures r.outcome == Failed ==> exists i :: 0 <= i < |events| && BareMedia(events[i])
    decreases |events|
  {
    if |events| == 0 then
      Run(items, found, status, [CompletedNotice(found)], Completed)
    else
      match Advance(cat, items, found, status, events[0])
      case Stop(r) => r
      case Continue(items', found', status', emitted) =>
        var rest := Sweep(cat, items', found', status', events[1..]);
        PrependProgress(cat, found, found', emitted, rest);
        CarryProgress(cat, items, found, status, events[0], rest);
        CarryFailure(events, rest.outcome);
        rest.(notices := emitted + rest.notices)
  }

  /** A media message with neither a document nor a video: reading its
      attachment raises. */
  predicate BareMedia(e: Event) {
    e.Delivered? && !Skipped(e.msg) && !HasFile(e.msg.value)
  }

  /** The notices due at every multiple of 20 from the counter onwards are
      still there once the step's own notices are put in front. */
  lemma CarryProgress(cat: Category, items: Catalog, found: nat, status: IndexStatus, e: Event, rest: Run)
    requires Advance(cat, items, found, status, e).Continue?
    requires var s := Advance(cat, items, found, status, e);
             forall k :: s.found < k <= rest.found && k % ProgressEvery == 0 ==> Progress(cat, k) in rest.notices
    ensures var s := Advance(cat, items, found, status, e);
            forall k :: found < k <= rest.found && k % ProgressEvery == 0 ==>
              Progress(cat, k) in s.emitted + rest.notices
  {
    var s := Advance(cat, items, found, status, e);
    forall k | found < k <= rest.found && k % ProgressEvery == 0
      ensures Progress(cat, k) in s.emitted + rest.notices
    {
      if k == s.found {
        assert s.emitted == [Progress(cat, k)];
      } else {
        assert Progress(cat, k) in rest.notices;
      }
    }
  }

  /** A failing rest of the run met its attachment-less message somewhere
      in the remaining events. */
  lemma CarryFailure(events: seq<Event>, outcome: Outcome)
    requires |events| > 0
    requires outcome == Failed ==> exists i :: 0 <= i < |events[1..]| && BareMedia(events[1..][i])
    ensures outcome == Failed ==> exists i :: 0 <= i < |events| && BareMedia(events[i])
  {
    if outcome == Failed {
      var i :| 0 <= i < |events[1..]| && BareMedia(events[1..][i]);
      assert events[i + 1] == events[1..][i];
    }
  }

  /** Progress notices at the counter a run continues from may be put in
      front of that run's notices. */
  lemma PrependProgress(cat: Category, found: nat, found': nat, emitted: seq<Notice>, rest: Run)
    requires found <= found' <= rest.found
    requires WellFormedNotices(cat, found', rest)
    requires forall n :: n in emitted ==> n == Progress(cat, found') && found' % ProgressEvery == 0
    ensures WellFormedNotices(cat, found, rest.(notices := emitted + rest.notices))
  {
    var all := emitted + rest.notices;
    forall i | 0 <= i < |all|
      ensures all[i].Progress? ==> all[i].category == cat && all[i].found % ProgressEvery == 0 &&
                                   found <= all[i].found <= rest.found
      ensures !all[i].Progress? ==> i == |all| - 1 && rest.outcome != Failed
    {
      if i < |emitted| {
        assert all[i] in emitted;
      } else {
        assert all[i] == rest.notices[i - |emitted|];
      }
    }
  }

  /** A media message with neither a document nor a video, met while the
      flag is down, ends the run at once, with no notice. */
  lemma BareMediaFails(cat: Category, items: Catalog, found: nat, status: IndexStatus,
                       m: Message, events: seq<Event>)
    requires !status.cancel && m.hasMedia && !HasFile(m)
    ensures Sweep(cat, items, found, status, [Delivered(Some(m))] + events) ==
            Run(items, found, status, [], Failed)
  {
    assert ([Delivered(Some(m))] + events)[0] == Delivered(Some(m));
  }

  /** What one indexing run leaves behind: both catalog files, the shared
      status, and the run itself. */
  datatype Report = Report(db: Db, status: IndexStatus, run: Run)

  /** `index_files_to_db`: clear the cancel flag, pick the category from the
      chat, sweep the delivered messages against that category's catalog.
      Every append is saved at once, so the file holds the run's catalog
      whichever way the run ends. */
  function IndexFilesToDb(cfg: Config, db: Db, status: IndexStatus, chat: int, events: seq<Event>): (r: Report)
    ensures r.db.Get(CategoryOf(cfg, chat)) == r.run.items
    ensures r.db.Get(CategoryOf(cfg, chat).Other()) == db.Get(CategoryOf(cfg, chat).Other())
    ensures db.Get(CategoryOf(cfg, chat)) <= r.run.items
    ensures |r.run.items| == |db.Get(CategoryOf(cfg, chat))| + r.run.found
    ensures NoDuplicateIds(db.Get(CategoryOf(cfg, chat))) ==> NoDuplicateIds(r.run.items)
    ensures r.status.current == status.current
    ensures WellFormedNotices(CategoryOf(cfg, chat), 0, r.run)
    ensures forall k :: 0 < k <= r.run.found && k % ProgressEvery == 0 ==>
              Progress(CategoryOf(cfg, chat), k) in r.run.notices
  {
    var c := CategoryOf(cfg, chat);
    var run := Sweep(c, db.Get(c), 0, BeginRun(status), events);
    Report(db.Put(c, run.items), run.status, run)
  }

  /** A stretch of absent or media-less messages changes neither the
      catalog nor the counter, and the run completes. */
  lemma {:induction false} SkippedMessagesChangeNothing(cat: Category, items: Catalog, found: nat,
                                                       status: IndexStatus, events: seq<Event>)
    requires !status.cancel
    requires forall i :: 0 <= i < |events| ==> events[i].Delivered? && Skipped(events[i].msg)
    ensures Sweep(cat, items, found, status, events) ==
            Run(items, found, status, [CompletedNotice(found)], Completed)
  {
    if |events| > 0 {
      SkippedMessagesChangeNothing(cat, items, found, status, events[1..]);
    }
  }

  /** The records the media messages among `events` offer, in order. */
  function Offered(events: seq<Event>): seq<Record>
    decreases |events|
  {
    if |events| == 0 then []
    else
      var rest := Offered(events[1..]);
      match events[0]
      case Delivered(m) =>
        if !Skipped(m) && Extract(m.value).Some? then [Extract(m.value).value] + rest else rest
      case CancelRequested => rest
  }

  /** A run that no cancel request and no attachment-less media message
      interrupts completes, and its catalog is the old one with every offered
      record appended in turn unless its file id was already there. */
  lemma {:induction false} UninterruptedRunAddsOffered(cat: Category, items: Catalog, found: nat,
                                                      status: IndexStatus, events: seq<Event>)
    requires !status.cancel
    requires forall i :: 0 <= i < |events| ==>
               events[i].Delivered? && (Skipped(events[i].msg) || HasFile(events[i].msg.value))
    ensures Sweep(cat, items, found, status, events).items == AddAll(items, Offered(events))
    ensures Sweep(cat, items, found, status, events).outcome == Completed
    ensures Ids(Sweep(cat, items, found, status, events).items) == Ids(items) + Ids(Offered(events))
    decreases |events|
  {
    if |events| > 0 {
      var step := Advance(cat, items, found, status, events[0]);
      UninterruptedRunAddsOffered(cat, step.items, step.found, step.status, events[1..]);
    }
  }

  /** Once the flag is up, the catalog and the counter are frozen: the next
      delivered message ends the run with the cancel notice. */
  lemma {:induction false} RaisedFlagFreezes(cat: Category, items: Catalog, found: nat,
                                            status: IndexStatus, events: seq<Event>)
    requires status.cancel
    ensures Sweep(cat, items, found, status, events).items == items
    ensures Sweep(cat, items, found, status, events).found == found
    ensures (exists j :: 0 <= j < |events| && events[j].Delivered?) ==>
            Sweep(cat, items, found, status, events).outcome == Canceled
    decreases |events|
  {
    if |events| > 0 && events[0].CancelRequested? {
      RaisedFlagFreezes(cat, items, found, RequestCancel(status), events[1..]);
      if exists j :: 0 <= j < |events| && events[j].Delivered? {
        var j :| 0 <= j < |events| && events[j].Delivered?;
        assert events[1..][j - 1].Delivered?;
      }
    }
  }

  /** A cancel request at position k cuts the run off there: no message
      after k reaches the catalog or the counter, and the run only completes
      if no message at all arrives after k. */
  lemma {:induction false} CancelCutsOff(cat: Category, items: Catalog, found: nat,
                                        status: IndexStatus, events: seq<Event>, k: nat)
    requires k < |events| && events[k].CancelRequested?
    ensures Sweep(cat, items, found, status, events).items == Sweep(cat, items, found, status, events[..k + 1]).items
    ensures Sweep(cat, items, found, status, events).found == Sweep(cat, items, found, status, events[..k + 1]).found
    ensures Sweep(cat, items, found, status, events).outcome == Completed ==>
            forall j :: k < j < |events| ==> events[j].CancelRequested?
    decreases |events|
  {
    var cut := events[..k + 1];
    assert cut[0] == events[0];
    var step := Advance(cat, items, found, status, events[0]);
    if k == 0 {
      assert cut[1..] == [];
      RaisedFlagFreezes(cat, items, found, RequestCancel(status), events[1..]);
      var r := Sweep(cat, items, found, status, events);
      if r.outcome == Completed {
        forall j | 0 < j < |events|
          ensures events[j].CancelRequested?
        {
          assert events[1..][j - 1] == events[j];
        }
      }
    } else if step.Continue? {
      assert cut[1..] == events[1..][..k];
      CancelCutsOff(cat, step.items, step.found, step.status, events[1..], k - 1);
      var r := Sweep(cat, items, found, status, events);
      if r.outcome == Completed {
        forall j | k < j < |events|
          ensures events[j].CancelRequested?
        {
          assert events[1..][j - 1] == events[j];
        }
      }
    }
  }

  /** The path a run takes depends on the messages and the cancel requests,
      never on the catalog: sweeping the same events against a catalog that
      already holds every id the first sweep ended with appends nothing and
      ends the same way. */
  lemma {:induction false} RerunAddsNothing(cat: Category, items: Catalog, found: nat,
                                           items2: Catalog, found2: nat,
                                           status: IndexStatus, events: seq<Event>)
    requires Ids(Sweep(cat, items, found, status, events).items) <= Ids(items2)
    ensures Sweep(cat, items2, found2, status, events).items == items2
    ensures Sweep(cat, items2, found2, status, events).found == found2
    ensures Sweep(cat, items2, found2, status, events).outcome == Sweep(cat, items, found, status, events).outcome
    decreases |events|
  {
    if |events| > 0 {
      var step := Advance(cat, items, found, status, events[0]);
      AdvanceOnCatalogued(cat, items, found, items2, found2, status, events[0]);
      if step.Continue? {
        var r1 := Sweep(cat, step.items, step.found, step.status, events[1..]);
        PrefixIds(step.items, r1.items);
        RerunAddsNothing(cat, step.items, step.found, items2, found2, step.status, events[1..]);
      }
    }
  }

  /** One event takes the same route whatever the catalog, and adds nothing
      to a catalog that already holds the id it would add. */
  lemma AdvanceOnCatalogued(cat: Category, items: Catalog, found: nat, items2: Catalog, found2: nat,
                            status: IndexStatus, e: Event)
    ensures var s1 := Advance(cat, items, found, status, e);
            var s2 := Advance(cat, items2, found2, status, e);
            && (s1.Stop? <==> s2.Stop?)
            && (s1.Stop? ==> s2.run.outcome == s1.run.outcome)
            && (s1.Continue? && Ids(s1.items) <= Ids(items2) ==>
                  s2.items == items2 && s2.found == found2 && s2.status == s1.status)
  {
  }

  /** Indexing the same channel twice over the same messages: the second
      run adds no record, leaves both catalogs as the first run left them,
      and ends the same way. */
  lemma IndexTwiceAddsNothing(cfg: Config, db: Db, status: IndexStatus, chat: int, events: seq<Event>)
    ensures var first := IndexFilesToDb(cfg, db, status, chat, events);
            var second := IndexFilesToDb(cfg, first.db, first.status, chat, events);
            second.db == first.db && second.run.found == 0 && second.run.outcome == first.run.outcome
  {
    var c := CategoryOf(cfg, chat);
    var first := IndexFilesToDb(cfg, db, status, chat, events);
    assert BeginRun(first.status) == BeginRun(status);
    RerunAddsNothing(c, db.Get(c), 0, first.db.Get(c), 0, BeginRun(status), events);
  }

  /** A cancel raised before the run starts has no effect on it. */
  lemma CancelResetAtStart(cfg: Config, db: Db, current: int, chat: int, events: seq<Event>)
    ensures IndexFilesToDb(cfg, db, IndexStatus(true, current), chat, events) ==
            IndexFilesToDb(cfg, db, IndexStatus(false, current), chat, events)
  {
  }

  /** The progress test looks at the counter after every media message, new
      or not: a message whose file is already catalogued, met while the
      counter is still 0, emits a "0 files indexed" progress notice. */
  lemma DuplicateAtZeroEmitsProgress(cat: Category, rec: FileRef)
    ensures var items := [RecordOf(rec)];
            var m := Message(true, Some(rec), None);
            Sweep(cat, items, 0, Initial, [Delivered(Some(m))]) ==
            Run(items, 0, Initial, [Progress(cat, 0), CompletedNotice(0)], Completed)
  {
    var items := [RecordOf(rec)];
    assert items[0].fileId == rec.fileId;
    assert rec.fileId in Ids(items);
  }
}
