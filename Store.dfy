/** The `LogEntry` table, held as an in-memory sequence of rows in insertion order, and the upload
    endpoint that appends one uploaded file's entries to it in a single commit. */
module Store {
  import opened Wrappers
  import opened Text
  import opened Timestamps
  import opened Ingest

  /** The `file` part of a multipart upload: the name the client gave it, and its text, or None
      when its bytes are not valid UTF-8. */
  datatype UploadedFile = UploadedFile(filename: string, content: Option<string>)

  /** The outcomes of `POST /api/upload`, one per reply of the endpoint: `Processed` is "Log file
      processed successfully" (200), `NoFilePart` is "No file part" (400), `NoSelectedFile` is
      "No selected file" (400), and `Failed` is the error caught by the `except` (500). */
  datatype UploadResponse = Processed | NoFilePart | NoSelectedFile | Failed
  {
    function Status(): int
    {
      match this
      case Processed => 200
      case NoFilePart => 400
      case NoSelectedFile => 400
      case Failed => 500
    }
  }

  /** The rows a batch of new entries becomes when it is flushed: ids counted up from `firstId`
      in batch order, and the flush time as creation time. */
  function Persist(batch: seq<NewEntry>, firstId: nat, createdAt: Timestamp): seq<LogEntry>
  {
    seq(|batch|, k requires 0 <= k < |batch| =>
      LogEntry(firstId + k, batch[k].timestamp, batch[k].level, batch[k].message, batch[k].source, createdAt))
  }

  /** SQLite numbers the rows of a table that nothing deletes from 1, 2, 3, ... in insertion order. */
  predicate DenseIds(rows: seq<LogEntry>)
  {
    forall k :: 0 <= k < |rows| ==> rows[k].id == k + 1
  }

  predicate IdsIncreasing(rows: seq<LogEntry>)
  {
    forall i, j :: 0 <= i < j < |rows| ==> rows[i].id < rows[j].id
  }

  /** Appending a flushed batch keeps the numbering dense, so ids stay unique and increasing. */
  lemma PersistKeepsIdsDense(rows: seq<LogEntry>, batch: seq<NewEntry>, createdAt: Timestamp)
    requires DenseIds(rows)
    ensures DenseIds(rows + Persist(batch, |rows| + 1, createdAt))
    ensures IdsIncreasing(rows + Persist(batch, |rows| + 1, createdAt))
  {
  }

  /** The loop of the upload endpoint: the text is cut at newlines, blank lines are skipped, and
      every line that `split(' ', 3)` cuts into four parts adds one entry, in line order. */
  method ParseUpload(content: string, filename: string, now: Timestamp) returns (pending: seq<NewEntry>)
    ensures pending == ParseContent(content, filename, now)
  {
    var lines := Split(content, '\n');
    pending := [];
    for i := 0 to |lines|
      invariant pending == ParseLines(lines[..i], filename, now)
    {
      var line := lines[i];
      ParseLinesStep(lines, i, filename, now);
      if IsBlank(line) {
        continue;
      }
      var parts := SplitN(line, ' ', 3);
      if |parts| >= 4 {
        var timestamp;
        match ParseStamp(parts[0] + " " + parts[1]) {
          case Some(t) => timestamp := t;
          case None => timestamp := now;
        }
        var level := Strip(parts[2], IsBracket);
        var message := parts[3];
        assert ParseLine(line, filename, now) == Some(NewEntry(timestamp, level, message, filename)) by {
          assert timestamp == ParseStamp(parts[0] + " " + parts[1]).GetOr(now);
        }
        pending := pending + [NewEntry(timestamp, level, message, filename)];
      }
    }
    assert lines[..|lines|] == lines;
  }

  class LogStore {
    /** The rows of the table, in insertion order. */
    var entries: seq<LogEntry>

    ghost predicate Valid()
      reads this
    {
      DenseIds(entries)
    }

    constructor ()
      ensures Valid() && entries == []
    {
      entries := [];
    }

    /** `POST /api/upload`: without a `file` part, or with an empty file name, the request is
        refused (400). Otherwise every line of the file's text is parsed in order and the entries
        are committed together (200); a file that does not decode, or a commit that fails, ends in
        500 with nothing stored. The clock reading `now` stands for the timestamp of lines whose
        own timestamp does not parse and for the creation time of the new rows; `commitSucceeds`
        is the database's answer to the commit. */
    method Upload(file: Option<UploadedFile>, now: Timestamp, commitSucceeds: bool) returns (response: UploadResponse)
      requires Valid()
      modifies this
      ensures Valid()
      ensures response == NoFilePart <==> file.None?
      ensures response == NoSelectedFile <==> file.Some? && file.value.filename == ""
      ensures response == Failed <==>
                file.Some? && file.value.filename != "" && (file.value.content.None? || !commitSucceeds)
      ensures response == Processed ==>
                entries == old(entries) + Persist(ParseContent(file.value.content.value, file.value.filename, now),
                                                  |old(entries)| + 1, now)
      ensures response != Processed ==> entries == old(entries)
    {
      if file.None? {
        return NoFilePart;
      }
      var f := file.value;
      if f.filename == "" {
        return NoSelectedFile;
      }
      if f.content.None? {
        return Failed;
      }
      var pending := ParseUpload(f.content.value, f.filename, now);
      if !commitSucceeds {
        return Failed;
      }
      PersistKeepsIdsDense(entries, pending, now);
      entries := entries + Persist(pending, |entries| + 1, now);
      response := Processed;
    }
  }
}
