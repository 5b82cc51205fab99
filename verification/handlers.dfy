/** The bot's message and button handlers around the indexing run: the
    forwarded-message handler with its channel guard and its manual save,
    the full-index button, and the single-file button. */
module Handlers {
  import opened Wrappers
  import opened Records
  import opened Session
  import opened Indexer
  import opened Callback

  /** Where a forwarded message came from, when it carries a
      "forwarded from" channel tag. */
  datatype Origin = Origin(chat: int, messageId: int)

  /** A message forwarded to the bot. */
  datatype Forwarded = Forwarded(origin: Option<Origin>, body: Message)

  /** What the bot answers. */
  datatype Reply =
    | InvalidChannel
    | ChooseMode(fullData: string, singleData: string)
    | Saved(title: Option<string>)
    | NoReply

  /** Only the two configured channels may be indexed. */
  predicate Authorized(cfg: Config, chat: int) {
    chat == cfg.movieChannel || chat == cfg.tvChannel
  }

  /** `forwarded_index`. A tagged forward from a configured channel gets the
      two buttons, any other tagged forward the refusal; neither touches a
      catalog. An untagged forward carrying a file is saved to the movies
      catalog unless its file id is there, and only a new file is
      acknowledged. */
  function OnForwarded(cfg: Config, db: Db, f: Forwarded): (r: (Db, Reply))
    ensures f.origin.Some? ==> r.0 == db
    ensures f.origin.Some? ==> (r.1 == InvalidChannel <==> !Authorized(cfg, f.origin.value.chat))
    ensures f.origin.Some? && Authorized(cfg, f.origin.value.chat) && f.origin.value.messageId >= 0 ==>
              var o := f.origin.value;
              && r.1.ChooseMode?
              && (o.chat >= 0 ==>
                    && Handle(AsWritten, Full, r.1.fullData) == Some(Command(Full, o.chat, o.messageId))
                    && Handle(AsWritten, Single, r.1.singleData) == Some(Command(Single, o.chat, o.messageId)))
              && (o.chat < 0 ==>
                    Handle(AsWritten, Full, r.1.fullData).None? && Handle(AsWritten, Single, r.1.singleData).None?)
              && Handle(Corrected, Full, r.1.fullData) == Some(Command(Full, o.chat, o.messageId))
              && Handle(Corrected, Single, r.1.singleData) == Some(Command(Single, o.chat, o.messageId))
    ensures f.origin.None? ==> r.0.tvshows == db.tvshows && db.movies <= r.0.movies && |r.0.movies| <= |db.movies| + 1
    ensures f.origin.None? ==> (NoDuplicateIds(db.movies) ==> NoDuplicateIds(r.0.movies))
    ensures f.origin.None? ==> (r.1.Saved? <==> |r.0.movies| == |db.movies| + 1)
    ensures f.origin.None? && HasFile(f.body) ==> Extract(f.body).value.fileId in Ids(r.0.movies)
    ensures f.origin.None? && !HasFile(f.body) ==> r == (db, NoReply)
    ensures f.origin.None? && !r.1.Saved? ==> r.1 == NoReply
    ensures f.origin.None? && HasFile(f.body) ==>
              && r.0.movies == AddIfNew(db.movies, Extract(f.body).value)
              && (r.1.Saved? ==> r.1 == Saved(Extract(f.body).value.title))
  {
    match f.origin
    case Some(o) =>
      if !Authorized(cfg, o.chat) then
        (db, InvalidChannel)
      else
        ButtonsRoundTrip(AsWritten, o.chat, o.messageId);
        ButtonsRoundTrip(Corrected, o.chat, o.messageId);
        (db, ChooseMode(Format(Full, o.chat, o.messageId), Format(Single, o.chat, o.messageId)))
    case None =>
      if !HasFile(f.body) then
        (db, NoReply)
      else
        var rec := Extract(f.body).value;
        var items := AddIfNew(db.movies, rec);
        if |items| == |db.movies| + 1 then (db.Put(Movies, items), Saved(rec.title)) else (db, NoReply)
  }

  /** Both buttons' data are handled with the chat and message they were
      built from, except that the filter as written refuses a negative
      chat id. */
  lemma ButtonsRoundTrip(f: Filter, chat: int, msgId: int)
    ensures msgId >= 0 && (f == Corrected || chat >= 0) ==>
              && Handle(f, Full, Format(Full, chat, msgId)) == Some(Command(Full, chat, msgId))
              && Handle(f, Single, Format(Single, chat, msgId)) == Some(Command(Single, chat, msgId))
    ensures msgId >= 0 && f == AsWritten && chat < 0 ==>
              Handle(f, Full, Format(Full, chat, msgId)).None? && Handle(f, Single, Format(Single, chat, msgId)).None?
  {
    if msgId >= 0 {
      ButtonRoundTrip(f, Full, chat, msgId);
      ButtonRoundTrip(f, Single, chat, msgId);
    }
  }

  /** `full_index_callback`, registered with filter `f`: the button fires
      when its filter matches, and then indexes the chat named in the
      data. */
  function FullIndexCallback(f: Filter, cfg: Config, db: Db, status: IndexStatus, data: string,
                             events: seq<Event>): (r: Option<Report>)
    ensures r.Some? <==> Fires(f, Full, data)
    ensures r.Some? ==> r.value.status.current == status.current
  {
    match Handle(f, Full, data)
    case Some(cmd) => Some(IndexFilesToDb(cfg, db, status, cmd.chat, events))
    case None => None
  }

  /** Forwarding a message from a configured channel and pressing the
      full-index button indexes that channel, into the movies catalog
      exactly when it is the movie channel; with the filter as written the
      button does nothing when the channel's id is negative. */
  lemma ForwardThenFullIndex(f: Filter, cfg: Config, db: Db, status: IndexStatus, o: Origin, body: Message,
                             events: seq<Event>)
    requires Authorized(cfg, o.chat) && o.messageId >= 0
    ensures var reply := OnForwarded(cfg, db, Forwarded(Some(o), body)).1;
            && reply.ChooseMode?
            && (f == Corrected || o.chat >= 0 ==>
                  FullIndexCallback(f, cfg, db, status, reply.fullData, events) ==
                  Some(IndexFilesToDb(cfg, db, status, o.chat, events)))
            && (f == AsWritten && o.chat < 0 ==>
                  FullIndexCallback(f, cfg, db, status, reply.fullData, events).None?)
    ensures CategoryOf(cfg, o.chat) == Movies <==> o.chat == cfg.movieChannel
  {
  }

  /** Forwarding a message from a configured channel and pressing the
      single-file button fires its handler for that channel exactly when
      the filter admits the channel's id: always with the corrected filter,
      only for a non-negative id with the filter as written. */
  lemma ForwardThenSingleIndex(f: Filter, cfg: Config, db: Db, o: Origin, body: Message)
    requires Authorized(cfg, o.chat) && o.messageId >= 0
    ensures var reply := OnForwarded(cfg, db, Forwarded(Some(o), body)).1;
            && reply.ChooseMode?
            && (Fires(f, Single, reply.singleData) <==> f == Corrected || o.chat >= 0)
            && (Fires(f, Single, reply.singleData) ==>
                  Handle(f, Single, reply.singleData) == Some(Command(Single, o.chat, o.messageId)))
  {
  }

  /** How the single-file button ended: it saved the file of the message
      at `index`, found no file, or hit an empty message slot at `index`
      (the attribute error of reading a missing message). */
  datatype SingleOutcome = SavedFrom(index: nat) | NoFile | Crashed(index: nat)

  /** How many message slots the single-file button looked at before it
      stopped. */
  function Scanned(o: SingleOutcome, n: nat): nat {
    match o
    case SavedFrom(i) => i
    case Crashed(i) => i
    case NoFile => n
  }

  /** The loop of `single_index_callback`: the first message with a document
      or a video is saved to the catalog unless its file id is there, and is
      acknowledged either way. */
  method SaveFirstFile(items: Catalog, msgs: seq<Option<Message>>) returns (items': Catalog, reply: Reply, outcome: SingleOutcome)
    ensures Scanned(outcome, |msgs|) <= |msgs|
    ensures forall j :: 0 <= j < Scanned(outcome, |msgs|) ==> msgs[j].Some? && !HasFile(msgs[j].value)
    ensures outcome.SavedFrom? ==>
              outcome.index < |msgs| &&
              var m := msgs[outcome.index];
              m.Some? && HasFile(m.value) &&
              items' == AddIfNew(items, Extract(m.value).value) &&
              reply == Saved(Extract(m.value).value.title)
    ensures outcome.Crashed? ==> outcome.index < |msgs| && msgs[outcome.index].None? && items' == items && reply == NoReply
    ensures outcome.NoFile? ==> items' == items && reply == NoReply
  {
    var i := 0;
    while i < |msgs|
      invariant 0 <= i <= |msgs|
      invariant forall j :: 0 <= j < i ==> msgs[j].Some? && !HasFile(msgs[j].value)
    {
      if msgs[i].None? {
        return items, NoReply, Crashed(i);
      }
      var m := msgs[i].value;
      if HasFile(m) {
        var rec := Extract(m).value;
        var known := ContainsId(items, rec.fileId);
        items' := if known then items else items + [rec];
        return items', Saved(rec.title), SavedFrom(i);
      }
      i := i + 1;
    }
    return items, NoReply, NoFile;
  }

  /** `single_index_callback`, registered with filter `f`: when its filter
      matches, the first file the channel delivers is saved to the movies
      catalog, whatever the chat. */
  method SingleIndexCallback(f: Filter, db: Db, data: string, msgs: seq<Option<Message>>)
    returns (db': Db, reply: Reply, fired: bool, outcome: SingleOutcome)
    ensures fired <==> Fires(f, Single, data)
    ensures fired && f == AsWritten ==> Handle(f, Single, data).value.chat >= 0
    ensures db'.tvshows == db.tvshows
    ensures db.movies <= db'.movies && |db'.movies| <= |db.movies| + 1
    ensures NoDuplicateIds(db.movies) ==> NoDuplicateIds(db'.movies)
    ensures !fired ==> db' == db && reply == NoReply
    ensures fired ==> Scanned(outcome, |msgs|) <= |msgs|
    ensures fired ==> forall j :: 0 <= j < Scanned(outcome, |msgs|) ==> msgs[j].Some? && !HasFile(msgs[j].value)
    ensures fired && outcome.SavedFrom? ==>
              outcome.index < |msgs| &&
              var m := msgs[outcome.index];
              m.Some? && HasFile(m.value) &&
              db'.movies == AddIfNew(db.movies, Extract(m.value).value) &&
              reply == Saved(Extract(m.value).value.title)
    ensures fired && outcome.Crashed? ==> outcome.index < |msgs| && msgs[outcome.index].None?
    ensures fired && !outcome.SavedFrom? ==> db' == db && reply == NoReply
  {
    var cmd := Handle(f, Single, data);
    if cmd.None? {
      return db, NoReply, false, NoFile;
    }
    var items, r;
    items, r, outcome := SaveFirstFile(db.movies, msgs);
    return db.Put(Movies, items), r, true, outcome;
  }
}
