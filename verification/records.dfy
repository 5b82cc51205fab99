/** Messages as the channel delivers them, catalog records, and the
    "append the record unless its file id is already there" step that every
    saving path of the bot shares. */
module Records {
  import opened Wrappers

  /** A media attachment: Telegram may leave the file name out. */
  datatype FileRef = FileRef(fileName: Option<string>, fileId: string)

  /** A channel message. `hasMedia` is the message's media marker; the
      document and the video are its two attachment slots. The source never
      checks that these agree, so neither does the model. */
  datatype Message = Message(hasMedia: bool, document: Option<FileRef>, video: Option<FileRef>)

  /** One catalog entry, stored as `{"title": ..., "file_id": ...}`. */
  datatype Record = Record(title: Option<string>, fileId: string)

  /** A category's catalog, in insertion order. */
  type Catalog = seq<Record>

  /** The message has a document or a video. */
  predicate HasFile(m: Message) {
    m.document.Some? || m.video.Some?
  }

  function RecordOf(f: FileRef): Record {
    Record(f.fileName, f.fileId)
  }

  /** Reads the title and the file id off a message, the document first.
      None stands for the attribute error the source raises when neither
      attachment is present. */
  function Extract(m: Message): (r: Option<Record>)
    ensures r.Some? <==> HasFile(m)
    ensures r.Some? && m.document.Some? ==> r.value == RecordOf(m.document.value)
    ensures r.Some? && m.document.None? ==> r.value == RecordOf(m.video.value)
  {
    if m.document.Some? then Some(RecordOf(m.document.value))
    else if m.video.Some? then Some(RecordOf(m.video.value))
    else None
  }

  /** When a document is present the video slot is never consulted. */
  lemma DocumentTakesPrecedence(m: Message, v: Option<FileRef>)
    requires m.document.Some?
    ensures Extract(m.(video := v)) == Extract(m)
    ensures Extract(m).Some? && Extract(m).value.fileId == m.document.value.fileId
  {
  }

  /** The set of file ids a catalog holds. */
  function Ids(items: Catalog): set<string> {
    set i | 0 <= i < |items| :: items[i].fileId
  }

  /** No two records of the catalog share a file id. */
  predicate NoDuplicateIds(items: Catalog) {
    forall i, j :: 0 <= i < j < |items| ==> items[i].fileId != items[j].fileId
  }

  /** The duplicate scan `any(item["file_id"] == file_id for item in items)`,
      stopping at the first hit. */
  method ContainsId(items: Catalog, id: string) returns (found: bool)
    ensures found <==> id in Ids(items)
  {
    found := false;
    var i := 0;
    while i < |items| && !found
      invariant 0 <= i <= |items|
      invariant found <==> exists j :: 0 <= j < i && items[j].fileId == id
    {
      found := items[i].fileId == id;
      i := i + 1;
    }
  }

  /** Appends `rec` unless a record with its file id is already present. */
  function AddIfNew(items: Catalog, rec: Record): (r: Catalog)
    ensures items <= r && |r| <= |items| + 1
    ensures |r| == |items| + 1 <==> rec.fileId !in Ids(items)
    ensures |r| == |items| + 1 ==> r[|items|] == rec
    ensures Ids(r) == Ids(items) + {rec.fileId}
    ensures NoDuplicateIds(items) ==> NoDuplicateIds(r)
  {
    if rec.fileId in Ids(items) then items
    else
      var r := items + [rec];
      assert r[|items|].fileId in Ids(r);
      r
  }

  lemma IdsCons(rec: Record, rest: Catalog)
    ensures Ids([rec] + rest) == {rec.fileId} + Ids(rest)
  {
    var c := [rec] + rest;
    forall id | id in Ids(rest)
      ensures id in Ids(c)
    {
      var i :| 0 <= i < |rest| && rest[i].fileId == id;
      assert c[i + 1] == rest[i];
    }
    assert c[0] == rec;
  }

  /** Offers every record of `recs` to the catalog in turn. */
  function AddAll(items: Catalog, recs: seq<Record>): (r: Catalog)
    ensures items <= r
    ensures Ids(r) == Ids(items) + Ids(recs)
    ensures NoDuplicateIds(items) ==> NoDuplicateIds(r)
    decreases |recs|
  {
    if |recs| == 0 then items
    else
      IdsCons(recs[0], recs[1..]);
      assert [recs[0]] + recs[1..] == recs;
      AddAll(AddIfNew(items, recs[0]), recs[1..])
  }

  /** A catalog that is a prefix of another holds no id the other lacks. */
  lemma {:induction false} PrefixIds(a: Catalog, b: Catalog)
    requires a <= b
    ensures Ids(a) <= Ids(b)
  {
    forall id | id in Ids(a)
      ensures id in Ids(b)
    {
      var i :| 0 <= i < |a| && a[i].fileId == id;
      assert b[i] == a[i];
    }
  }
}
