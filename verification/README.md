# Channel indexing bot — a Dafny model

The modelled system is a Telegram bot. It indexes the media files posted
in two configured channels, one for movies and one for TV shows, into two
JSON catalogs (`movies.json`, `tvshows.json`). Each catalog entry is
`{"title", "file_id"}`, and the file id is the deduplication key. This
project models the bot's indexing core in `bot.py`:

- the indexing run `index_files_to_db`. It is a fold over the message
  stream the channel delivers. Absent and media-less messages are skipped.
  The title and file id are read off the document, or else off the video.
  The record is appended unless its file id is already catalogued. A counter
  counts the new records. A progress edit is made whenever the counter is a
  multiple of 20. A completion edit closes the run;
- the process-wide `IndexStatus` record (cancel flag, message offset). The
  run clears the flag when it starts. `/cancel` raises it. The run checks it
  before every message and, once it sees it raised, stops with the cancel
  edit instead of the completion edit;
- the forwarded-message handler. A forward tagged with a channel outside the
  two configured ones is refused. A forward from a configured channel gets
  two inline buttons. An untagged forward carrying a file is saved to the
  movies catalog;
- the two button handlers and the text their callback data carries
  (`index_full_<chat>_<msg>`, `index_single_<chat>_<msg>`): how it is built,
  which texts the handlers' patterns accept, and how they decode it with
  `split("_")` and `int`;
- the single-file button, which saves the first file the channel delivers
  to the movies catalog.

The model is functional. The message stream is an input `seq<Event>`, in
which every element is either a delivered message slot (`Option<Message>`)
or a `/cancel` request handled between two messages. The two catalogs are a
value `Db` threaded through the handlers. Edits and replies are output
values (`Notice`, `Reply`).

Modules: `Wrappers` (Option), `Records` (messages, records, extraction,
the duplicate-checked append), `Session` (`IndexStatus`), `Indexer` (the
run), `Callback` (button data), `Handlers` (the handlers).

### Behaviour modelled as the code has it

- Paging is left to `iter_messages`. The run hands it the chat, the last
  message id and `IndexStatus.CURRENT`, and folds over whatever it yields.
  There are no windows, no resume arithmetic, no per-window saves and no
  delay, so the model has none either.
- The progress test `found_files % 20 == 0` runs after every media message
  that has a file, new or already catalogued. So a run whose first such
  message is already catalogued asks for a "0 files indexed" edit
  (`Indexer.DuplicateAtZeroEmitsProgress`). Whenever the counter stays on a
  multiple of 20 across several such messages, the same edit is asked for
  again each time. The model records each of these edits as a `Notice`.
- The code saves the catalog after every append. So a cancelled or failed
  run leaves on disk exactly the records it appended, and there is no
  separate persistence step.
- A media message that has neither a document nor a video makes the
  extraction raise an attribute error. That ends the run with no terminal
  edit (`Outcome.Failed`). The single-file button likewise raises on an
  empty message slot (`SingleOutcome.Crashed`).
- The button filters read the chat id as `\d+`, so as written they never
  fire for a negative chat id. See "## Findings". The handlers take the
  filter as a parameter (`Callback.Filter`): `AsWritten` is the code's
  pattern, `Corrected` the one that admits a minus sign.
- The manually forwarded file and the single-file button always use the
  movies catalog, whatever the content. The full-index button does not
  re-check the channel: any chat other than the movie channel is indexed
  into the TV-show catalog (`Indexer.CategoryOf`).

## Model

| member | source | states |
|---|---|---|
| Records.Extract | bot.py:73-74 | a record is extracted exactly when the message has a document or a video; it is the document's name and id whenever a document is present, the video's otherwise |
| Records.DocumentTakesPrecedence | bot.py:143-144 | when a document is present, replacing the video by anything leaves the extracted record unchanged, and its id is the document's |
| Records.ContainsId | bot.py:81 | the short-circuiting duplicate scan answers true exactly when some record of the catalog has the file id |
| Records.AddIfNew | bot.py:80-84 | the catalog either stays as it is (the id was present) or grows by exactly the new record at its end; earlier records never change; afterwards the id is present; no duplicate id is introduced |
| Records.AddAll | bot.py:78-84 | offering a series of records one by one only appends, ends with the old ids plus every offered id, and keeps the catalog duplicate-free |
| Session.BeginRun | bot.py:60-61 | starting a run lowers the cancel flag and keeps the offset |
| Session.RequestCancel | bot.py:157-161 | `/cancel` raises the flag and keeps the offset |
| Session.CancelBeforeRunIsForgotten | bot.py:61 | a cancel requested before a run starts is forgotten by that run; requesting it twice is the same as once |
| Indexer.CategoryOf | bot.py:76-77 | the category is movies exactly when the chat is the movie channel, TV shows for every other chat |
| Indexer.Advance | bot.py:66-88 | one event, case by case: a cancel request only raises the flag; a delivered message with the flag raised stops the run as cancelled with the cancel edit, catalog and counter untouched; an absent or media-less message changes nothing; a media message without document or video stops the run as failed with no edit; a media message with a file offers its record to the duplicate-checked append, the counter grows exactly when the catalog does, and a progress edit is emitted exactly when the counter is then a multiple of 20 |
| Indexer.Sweep | bot.py:63-90 | the run only appends; the counter equals the number of records appended; a duplicate-free catalog stays duplicate-free; once raised the flag stays raised; a completed run ends with the completion edit carrying the counter, a cancelled one with the cancel edit, a failed one with no terminal edit; progress edits carry the category and multiples of 20, and every multiple of 20 the counter reaches gets one; a run fails only if some event is a media message without document or video |
| Indexer.BareMediaFails | bot.py:66-74 | a media message with neither document nor video, met while the flag is down, ends the run at once as failed, with catalog and counter untouched and no edit |
| Indexer.IndexFilesToDb | bot.py:58-90 | the chosen category's file holds the run's catalog, which extends the old one by exactly the counter's number of records; the other category's file is untouched; no duplicate id is introduced; the offset is kept; every multiple of 20 up to the counter gets a progress edit |
| Indexer.SkippedMessagesChangeNothing | bot.py:70-71 | absent and media-less messages change neither the catalog nor the counter, and the run completes |
| Indexer.UninterruptedRunAddsOffered | bot.py:65-90 | without cancel requests or attachment-less media, the run completes and its catalog equals offering each message's record in turn to the duplicate-checked append; its ids are the old ids plus every offered id |
| Indexer.RaisedFlagFreezes | bot.py:66-68 | with the flag raised, the catalog and the counter no longer change, and any further delivered message ends the run as cancelled |
| Indexer.CancelCutsOff | bot.py:65-68 | a cancel request at position k makes the catalog and counter what they would be if the stream ended at k; the run can only complete if no message is delivered after k |
| Indexer.RerunAddsNothing | bot.py:80-84 | the run's path does not depend on the catalog: against a catalog already holding every id the first run ended with, the same stream appends nothing and ends the same way |
| Indexer.IndexTwiceAddsNothing | bot.py:58-90 | indexing the same chat twice over the same stream: the second run adds no record, both catalog files stay as the first run left them, and the outcome is the same |
| Indexer.CancelResetAtStart | bot.py:60-61 | the flag's value before a run has no effect on the run |
| Indexer.DuplicateAtZeroEmitsProgress | bot.py:86-88 | an already-catalogued file met while the counter is 0 emits a "0 files indexed" progress edit before the completion edit |
| Callback.PyIntOfIntToString | bot.py:131 | `int` of `str` of any integer is that integer |
| Callback.MatchedDataDecodes | bot.py:128-131 | data the full-index pattern admits always splits into four pieces whose last two `int` reads without error, to non-negative numbers |
| Callback.Parse | bot.py:128-131 | the handler fires exactly when its pattern (`Matches`: the prefix, then `(\d+)_(\d+)`, anchored by `$`) matches the data, and then yields its own mode and two non-negative ids, decoded by `Decode` (`split("_")[2:]`, then `int`) |
| Callback.ParseReadsGroups | bot.py:128-131 | data made of the prefix and two digit groups, with or without the final newline that `$` lets through, is handled with exactly the groups' decimal values |
| Callback.RoundTrip | bot.py:106-131 | a button's data as `Format` builds it (`index_<mode>_<chat>_<msg>` with `str` of each id), for a non-negative chat id and message id, parses back to exactly those ids under its own handler |
| Callback.NoCrossTalk | bot.py:128-139 | the full-index button's data never fires the single-file handler, and the reverse |
| Callback.NegativeChatNeverParses | bot.py:128-136 | a button built for a negative chat id fires neither handler |
| Callback.Handle | bot.py:128-139 | a handler fires exactly when its filter matches, always with its own mode and a non-negative message id, and under the filter as written with a non-negative chat id |
| Callback.ButtonRoundTrip | bot.py:106-139 | a button's data is handled with its own chat and message under the corrected filter, and under the filter as written exactly when the chat id is non-negative; otherwise it is not handled |
| Callback.ParseSigned | bot.py:128-131 | with an optional minus sign on the chat id, the handler fires exactly when the pattern matches, and then yields its own mode and a non-negative message id |
| Callback.SignedRoundTrip | bot.py:106-131 | with the signed pattern every button, for any chat id and non-negative message id, parses back to exactly its own ids |
| Callback.SignedExtendsParse | bot.py:128 | the signed pattern accepts everything the original accepts, with the same result |
| Handlers.OnForwarded | bot.py:92-126 | a tagged forward never touches a catalog; it is refused exactly when its channel is not one of the two configured ones (`Authorized`, bot.py:100), and otherwise gets two buttons built by `Format`; under the filter as written those buttons are handled with that channel and message when the chat id is non-negative and not at all when it is negative, and under the corrected filter always with that channel and message; an untagged forward with a file offers exactly its extracted record (title and file id, the document first) to the duplicate-checked append on the movies catalog, leaves TV shows alone, and is acknowledged, with that record's title, exactly when a record was added; otherwise it gets no reply at all |
| Handlers.ButtonsRoundTrip | bot.py:105-108 | both buttons' data are handled with the chat and message they were built from under the corrected filter, and under the filter as written for a non-negative chat id; the filter as written handles neither button of a negative chat id |
| Handlers.FullIndexCallback | bot.py:128-134 | the full-index handler runs exactly when its filter (as written, or corrected) matches, and keeps the offset |
| Handlers.ForwardThenFullIndex | bot.py:97-134 | forwarding from a configured channel and pressing the full-index button runs the indexing of that very channel, into movies exactly when it is the movie channel; with the filter as written this holds only for a non-negative chat id, and for a negative one the button runs nothing |
| Handlers.ForwardThenSingleIndex | bot.py:97-139 | after a forward from a configured channel, the single-file handler fires on its button exactly when the filter is the corrected one or the chat id is non-negative, and then with that channel and message |
| Handlers.SaveFirstFile | bot.py:141-155 | every slot before the stopping point held a message without a file; on the first message with a file that file is offered to the catalog and acknowledged whether or not it was new; an empty slot first stops with nothing saved |
| Handlers.SingleIndexCallback | bot.py:136-155 | the single-file handler runs exactly when its filter (as written, or corrected) matches, and as written only with a non-negative chat id; when it runs, every message slot before its stopping point held a message without a file, and if it stopped on a message with a file that message's record is offered to the duplicate-checked append on the movies catalog and acknowledged with its title; it reports a crash only at an empty message slot; otherwise nothing changes and nothing is said; TV shows are never touched and the catalog stays duplicate-free |

## Findings

| source | as written | input that shows it | evidently intended | confidence | as-written member | corrected member |
|---|---|---|---|---|---|---|
| bot.py:128 | the button patterns take the chat id as `\d+`, digits only, while bot.py:106-107 write it with `str`, which puts a minus sign in front of a negative id | chat id -1001234567890, message 5: the data `index_full_-1001234567890_5` matches neither pattern, so the button does nothing. Telegram gives every channel a negative id, and the guard at bot.py:100 only admits the configured channel ids | the buttons offered for an admitted channel fire their handlers for that channel, i.e. the chat-id group reads `-?\d+` | not executed; medium — relies on Telegram's negative channel ids | Callback.NegativeChatNeverParses | Callback.SignedRoundTrip |

The handlers (`Handlers.FullIndexCallback`, `Handlers.SingleIndexCallback`)
take the filter as a parameter. `Callback.AsWritten` selects the code's
parser `Callback.Parse`, and `Callback.Corrected` the parser
`Callback.ParseSigned`. The corrected parser agrees with the original on
every text the original accepts (`Callback.SignedExtendsParse`).
`Handlers.ForwardThenFullIndex` and `Handlers.ForwardThenSingleIndex`
state both behaviours for the buttons of a configured channel.

## Left out

- The message source (`iter_messages` with `offset_id=IndexStatus.CURRENT` and the last message id): it is a network library call, so the messages it yields are an input sequence, and the offset is only carried through unchanged (no command of the bot ever sets it).
- The `asyncio` lock and the `async` structure: they only serve concurrency, and the run itself is sequential. One effect is therefore not modelled: the flag is cleared before the lock is taken, so a run waiting for the lock clears a cancel meant for the running one.
- JSON file I/O (`load_db`/`save_db`): the catalog is threaded through as a value. The run reloads the file at every media message that has a file and saves it only when it appends, which is the same thing while the bot is the only writer. The unlocked manual save racing with a run is a concurrency effect and is not modelled, and neither are missing or undecodable files read as empty, or stored entries lacking a `file_id` key.
- Telegram edits and replies are output values only, and every edit is taken to succeed. Not modelled: the texts, the "starting" edit, the reply to `/cancel`, and the library's refusal to edit a message to the text it already has. That refusal is an error, so in the code a run that asks for the same progress edit twice in a row (the counter staying on a multiple of 20 across two media messages with a file) stops there, with no completion edit, and indexes nothing after it.
- Indexer.UninterruptedRunAddsOffered: holds for the model, where edits always succeed. In the code a run can also stop at a repeated progress edit, as described above.
- Indexer.IndexTwiceAddsNothing: holds for the model, where edits always succeed. In the code, a second run over a channel whose files are all catalogued stays at counter 0. It therefore asks for the "0 files indexed" edit at every media message with a file, and stops with an error at the second one.
- Errors other than a missing attachment (network failures of the message source or of an edit) are not modelled.
- The administrator filter on `/cancel`, environment variables, `/start`, and the HTTP endpoints in `backend.py`, `admin_backend.py` and `main.py` are library plumbing or pass-through and are not modelled.
- Callback.PyIntOfIntToString: Python's `int` is modelled for surrounding ASCII white space (Python also strips \x1c-\x1f, \x85, \xa0 and the other Unicode spaces), an optional sign and ASCII digits; underscores between digits and non-ASCII digits (which `\d` and `int` also accept) are not modelled.
- Callback.Parse: `\d` is modelled as the ASCII digits only, for the same reason.
