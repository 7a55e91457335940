/**
 * The file-backed task store (repository/repository.go).
 *
 * The file's content is a field of the store; the JSON codec and the I/O faults of an
 * append are parameters. The step functions below state what each operation does to the
 * file as the code is written; the class methods are proved to perform exactly those steps.
 */
module Repository {
  import opened Wrappers
  import opened Models
  import opened Text
  import opened Codec

  /** The I/O outcome the environment chooses for an append. */
  datatype Fault = NoFault | OpenFails | MarshalFails | WriteFails

  datatype RepoError =
    | OpenFailed
    | MarshalFailed
    | WriteFailed
    | UnmarshalFailed
    | DoesNotExist(id: int)
    | IndexOutOfRange

  /** The outcome of the line edit of a delete. */
  datatype DeleteEdit = NoMatch | OutOfRange | Edited(lines: seq<string>)

  // ---------------------------------------------------------------------------------------
  // Positioned writes and appends

  /**
   * A positioned write of `data` at `off`: refused for a negative offset; otherwise the
   * characters before `off` and after the written range are kept, and a gap past the old end is
   * filled with NUL characters.
   */
  function WriteAt(content: string, data: string, off: int): (r: Option<string>)
    ensures r.None? <==> off < 0
    ensures r.Some? ==>
      && |r.value| == (if off + |data| < |content| then |content| else off + |data|)
      && r.value[off..off + |data|] == data
      && (forall k :: 0 <= k < off && k < |content| ==> r.value[k] == content[k])
      && (forall k :: |content| <= k < off ==> r.value[k] == '\0')
      && (forall k :: off + |data| <= k < |content| ==> r.value[k] == content[k])
  {
    if off < 0 then None
    else if off <= |content| then
      Some(content[..off] + data + (if off + |data| < |content| then content[off + |data|..] else []))
    else
      Some(content + seq(off - |content|, _ => '\0') + data)
  }

  /** The characters an append writes: a separator unless the cursor is right after "[\\n", then the record and the closing marker. */
  function Payload(offset: int, enc: string): (data: string)
    ensures offset == |FirstLine| ==> data == enc + LastLine
    ensures offset != |FirstLine| ==> |data| == |enc| + 4 && data[..2] == ",\n" && data[2..] == enc + LastLine
  {
    if offset != |FirstLine| then ",\n" + enc + LastLine else enc + LastLine
  }

  /** One append as written: the payload at the cursor, and the cursor advanced by every character written. */
  function AppendStep(file: string, offset: int, enc: string): (r: Option<(string, int)>)
    ensures r.None? <==> offset < 0
    ensures r.Some? ==>
      r.value.1 == offset + |Payload(offset, enc)|
  {
    var data := Payload(offset, enc);
    match WriteAt(file, data, offset)
    case None => None
    case Some(f) => Some((f, offset + |data|))
  }

  /** An append writes its payload at the cursor, and the new cursor is right after it. */
  lemma AppendStepWrites(file: string, offset: int, enc: string)
    ensures var r := AppendStep(file, offset, enc);
      r.Some? ==> 0 <= offset <= r.value.1 <= |r.value.0| && r.value.0[offset..r.value.1] == Payload(offset, enc)
  {
  }

  /** The id of the last record of the decoded file, 0 for an empty array, nothing if it does not decode. */
  function LoadSequenceId(c: JsonCodec, content: string): (r: Option<int>)
    ensures r.None? <==> c.decodeArray(content).None?
    ensures r.Some? && c.decodeArray(content).value == [] ==> r.value == 0
    ensures r.Some? && c.decodeArray(content).value != [] ==>
      var ts := c.decodeArray(content).value; r.value == ts[|ts| - 1].id
  {
    match c.decodeArray(content)
    case None => None
    case Some(ts) => Some(if ts == [] then 0 else ts[|ts| - 1].id)
  }

  // ---------------------------------------------------------------------------------------
  // Update

  /** The fields an update replaces; the id and the creation time are kept. */
  function ApplyUpdate(t: Task, upd: TaskUpdate, now: DateTime): (r: Task)
    ensures r.id == t.id && r.createdAt == t.createdAt
    ensures r.description == upd.description && r.status == upd.status && r.updatedAt == now
  {
    t.(description := upd.description, status := upd.status, updatedAt := now)
  }

  /**
   * One scanned line of an update, as written: a line holding the id pattern loses its last
   * character, is decoded, updated, encoded and gets that character back; a decode failure
   * aborts; other lines are kept.
   */
  function UpdateLine(c: JsonCodec, line: string, id: int, upd: TaskUpdate, now: DateTime): (r: Option<string>)
    ensures !Contains(line, IdPattern(id)) ==> r == Some(line)
    ensures Contains(line, IdPattern(id)) ==>
      && line != []
      && (r.None? <==> c.decode(line[..|line| - 1]).None?)
      && (r.Some? ==> r.value == c.encode(ApplyUpdate(c.decode(line[..|line| - 1]).value, upd, now)) + [line[|line| - 1]])
  {
    if Contains(line, IdPattern(id)) then
      match c.decode(line[..|line| - 1])
      case None => None
      case Some(t) => Some(c.encode(ApplyUpdate(t, upd, now)) + line[|line| - 1..])
    else Some(line)
  }

  /** Every line rewritten by `f` in scan order, or nothing as soon as one rewrite fails. */
  function RewriteAll(lines: seq<string>, f: string -> Option<string>): (r: Option<seq<string>>)
    ensures r.Some? ==> |r.value| == |lines|
  {
    if lines == [] then Some([])
    else
      match RewriteAll(lines[..|lines| - 1], f)
      case None => None
      case Some(out) =>
        match f(lines[|lines| - 1])
        case None => None
        case Some(line) => Some(out + [line])
  }

  /** One more scanned line that rewrites to `line` extends the rewritten prefix by it. */
  lemma RewriteAllStep(lines: seq<string>, f: string -> Option<string>, i: int, out: seq<string>, line: string)
    requires 0 <= i < |lines| && RewriteAll(lines[..i], f) == Some(out) && f(lines[i]) == Some(line)
    ensures RewriteAll(lines[..i + 1], f) == Some(out + [line])
  {
    assert lines[..i + 1][..i] == lines[..i];
  }

  /** A successful scan holds the rewrite of each line; a scan fails exactly when some line's rewrite does. */
  lemma {:induction false} RewriteAllEach(lines: seq<string>, f: string -> Option<string>)
    ensures var r := RewriteAll(lines, f);
      && (r.Some? ==> forall k :: 0 <= k < |lines| ==> f(lines[k]) == Some(r.value[k]))
      && (r.None? <==> exists k :: 0 <= k < |lines| && f(lines[k]).None?)
  {
    if lines != [] {
      var n := |lines| - 1;
      var init := lines[..n];
      RewriteAllEach(init, f);
      assert forall k :: 0 <= k < n ==> init[k] == lines[k];
      var r := RewriteAll(init, f);
      if r.None? {
        var k :| 0 <= k < n && f(init[k]).None?;
        assert f(lines[k]).None?;
      } else if f(lines[n]).Some? {
        var out := r.value + [f(lines[n]).value];
        assert forall k :: 0 <= k < n ==> out[k] == r.value[k];
      }
    }
  }

  /** The scan succeeds with `out` when every line rewrites to the matching line of `out`. */
  lemma {:induction false} RewriteAllFromEach(lines: seq<string>, f: string -> Option<string>, out: seq<string>)
    requires |out| == |lines|
    requires forall k :: 0 <= k < |lines| ==> f(lines[k]) == Some(out[k])
    ensures RewriteAll(lines, f) == Some(out)
  {
    if lines != [] {
      var n := |lines| - 1;
      var init, first := lines[..n], out[..n];
      assert forall k :: 0 <= k < n ==> init[k] == lines[k] && first[k] == out[k];
      RewriteAllFromEach(init, f, first);
      assert first + [out[n]] == out;
    }
  }

  /** The line update of `id`, as a rewrite of one scanned line. */
  function Updater(c: JsonCodec, id: int, upd: TaskUpdate, now: DateTime): string -> Option<string>
  {
    line => UpdateLine(c, line, id, upd, now)
  }

  /** All lines of an update, or nothing when one of them fails to decode. */
  function UpdateLines(c: JsonCodec, lines: seq<string>, id: int, upd: TaskUpdate, now: DateTime): (r: Option<seq<string>>)
    ensures r.Some? ==> |r.value| == |lines|
  {
    RewriteAll(lines, Updater(c, id, upd, now))
  }

  /** A rewrite of all lines holds the rewrite of each line, and fails exactly where some line fails. */
  lemma UpdateLinesEach(c: JsonCodec, lines: seq<string>, id: int, upd: TaskUpdate, now: DateTime)
    ensures var r := UpdateLines(c, lines, id, upd, now);
      && (r.Some? ==> forall k :: 0 <= k < |lines| ==> UpdateLine(c, lines[k], id, upd, now) == Some(r.value[k]))
      && (r.None? <==> exists k :: 0 <= k < |lines| && UpdateLine(c, lines[k], id, upd, now).None?)
  {
    RewriteAllEach(lines, Updater(c, id, upd, now));
  }

  /** The update of the whole file succeeds with `out` when every line's update gives the matching line of `out`. */
  lemma UpdateLinesFromEach(c: JsonCodec, lines: seq<string>, id: int, upd: TaskUpdate, now: DateTime, out: seq<string>)
    requires |out| == |lines|
    requires forall k :: 0 <= k < |lines| ==> UpdateLine(c, lines[k], id, upd, now) == Some(out[k])
    ensures UpdateLines(c, lines, id, upd, now) == Some(out)
  {
    RewriteAllFromEach(lines, Updater(c, id, upd, now), out);
  }

  /** The update of the whole file fails when the update of one line does. */
  lemma UpdateLinesFailAt(c: JsonCodec, lines: seq<string>, id: int, upd: TaskUpdate, now: DateTime, i: int)
    requires 0 <= i < |lines| && UpdateLine(c, lines[i], id, upd, now).None?
    ensures UpdateLines(c, lines, id, upd, now).None?
  {
    RewriteAllEach(lines, Updater(c, id, upd, now));
  }

  // ---------------------------------------------------------------------------------------
  // Delete

  /** The index of the last line holding `p`, or -1; the scan keeps overwriting the index. */
  function LastMatch(lines: seq<string>, p: string): (k: int)
    ensures -1 <= k < |lines|
    ensures k == -1 <==> forall j :: 0 <= j < |lines| ==> !Contains(lines[j], p)
    ensures k >= 0 ==> Contains(lines[k], p) && forall j :: k < j < |lines| ==> !Contains(lines[j], p)
  {
    if lines == [] then -1
    else if Contains(lines[|lines| - 1], p) then |lines| - 1
    else LastMatch(lines[..|lines| - 1], p)
  }

  /** One more scanned line: it becomes the last match if it holds the pattern. */
  lemma LastMatchStep(lines: seq<string>, i: int, p: string)
    requires 0 <= i < |lines|
    ensures LastMatch(lines[..i + 1], p) == if Contains(lines[i], p) then i else LastMatch(lines[..i], p)
  {
    assert lines[..i + 1][..i] == lines[..i];
  }

  /**
   * Removes line `k`. When it is the line before the last of several, the line before it
   * loses a trailing comma; for `k == 0` that line is at index -1 and the code panics.
   */
  function DeleteAt(lines: seq<string>, k: int): (r: DeleteEdit)
    requires -1 <= k < |lines|
    ensures r.NoMatch? <==> k == -1
    ensures r.OutOfRange? <==> k == 0 && |lines| == 2
  {
    if k == -1 then NoMatch
    else if |lines| > 1 && k == |lines| - 2 then
      if k == 0 then OutOfRange
      else
        var repaired := lines[k - 1 := TrimComma(lines[k - 1])];
        Edited(repaired[..k] + repaired[k + 1..])
    else Edited(lines[..k] + lines[k + 1..])
  }

  /**
   * The edited lines: one fewer, the lines before `k` kept except for the comma repair of
   * the line before it when it was the last record, and the lines after it moved up.
   */
  lemma DeleteAtLines(lines: seq<string>, k: int)
    requires -1 <= k < |lines| && DeleteAt(lines, k).Edited?
    ensures var out := DeleteAt(lines, k).lines;
      && |out| == |lines| - 1
      && (forall j :: 0 <= j < k ==>
            out[j] == if j == k - 1 && k == |lines| - 2 then TrimComma(lines[j]) else lines[j])
      && (forall j :: k <= j < |out| ==> out[j] == lines[j + 1])
  {
  }

  /** The line edit of a delete of `id`, as written: the last line holding the id pattern goes. */
  function DeleteLines(lines: seq<string>, id: int): (r: DeleteEdit)
    ensures r.NoMatch? <==> forall j :: 0 <= j < |lines| ==> !Contains(lines[j], IdPattern(id))
    ensures r.OutOfRange? <==> |lines| == 2 && LastMatch(lines, IdPattern(id)) == 0
  {
    DeleteAt(lines, LastMatch(lines, IdPattern(id)))
  }

  function Remove<T>(s: seq<T>, k: int): seq<T>
    requires 0 <= k < |s|
  {
    s[..k] + s[k + 1..]
  }

  // ---------------------------------------------------------------------------------------
  // The store

  class TaskRepositoryFile {
    /** The content of the file the store owns. */
    var file: string
    /** The position of the next append. */
    var offset: int
    /** The last id handed out. */
    var sequenceId: int

    constructor (file: string, offset: int, sequenceId: int)
      ensures this.file == file && this.offset == offset && this.sequenceId == sequenceId
    {
      this.file := file;
      this.offset := offset;
      this.sequenceId := sequenceId;
    }

    /**
     * Opens the store over a file with content `existing` (empty when the file is new). An
     * empty file gets the empty array written into it; otherwise the cursor is put before the
     * closing marker and the last record's id is loaded. `None` is the panic on a file that
     * does not decode.
     */
    static method NewTaskRepositoryFile(c: JsonCodec, existing: string) returns (r: Option<TaskRepositoryFile>)
      ensures existing == [] ==>
        r.Some? && fresh(r.value) && r.value.file == FirstLine + LastLine &&
        r.value.offset == |FirstLine| && r.value.sequenceId == 0
      ensures existing != [] ==> (r.None? <==> LoadSequenceId(c, existing).None?)
      ensures existing != [] && r.Some? ==>
        fresh(r.value) && r.value.file == existing &&
        r.value.offset == |existing| - |LastLine| &&
        r.value.sequenceId == LoadSequenceId(c, existing).value
    {
      if |existing| == 0 {
        var repo := new TaskRepositoryFile(FirstLine + LastLine, |FirstLine|, 0);
        return Some(repo);
      }
      var offset := |existing| - |LastLine|;
      var sequenceId := LoadSequenceId(c, existing);
      if sequenceId.None? {
        return None;
      }
      var repo := new TaskRepositoryFile(existing, offset, sequenceId.value);
      return Some(repo);
    }

    /**
     * Appends `task` under the next id. The id counter advances as soon as the file is
     * open, so a failed marshal or write still consumes an id; the file and the cursor
     * change only after a successful write.
     */
    method AddTask(c: JsonCodec, task: Task, fault: Fault) returns (err: Option<RepoError>)
      modifies this
      ensures fault == OpenFails ==>
        err == Some(OpenFailed) && sequenceId == old(sequenceId) && file == old(file) && offset == old(offset)
      ensures fault != OpenFails ==> sequenceId == old(sequenceId) + 1
      ensures fault == MarshalFails ==> err == Some(MarshalFailed) && file == old(file) && offset == old(offset)
      ensures fault == WriteFails ==> err == Some(WriteFailed) && file == old(file) && offset == old(offset)
      ensures fault == NoFault ==>
        match AppendStep(old(file), old(offset), c.encode(task.(id := old(sequenceId) + 1)))
        case None => err == Some(WriteFailed) && file == old(file) && offset == old(offset)
        case Some(next) => err == None && file == next.0 && offset == next.1
    {
      if fault == OpenFails {
        return Some(OpenFailed);
      }
      sequenceId := sequenceId + 1;
      var stored := task.(id := sequenceId);
      if fault == MarshalFails {
        return Some(MarshalFailed);
      }
      var stringJson := c.encode(stored);
      if offset != |FirstLine| {
        stringJson := ",\n" + stringJson + LastLine;
      } else {
        stringJson := stringJson + LastLine;
      }
      if fault == WriteFails {
        return Some(WriteFailed);
      }
      var written := WriteAt(file, stringJson, offset);
      if written.None? {
        return Some(WriteFailed);
      }
      file := written.value;
      offset := offset + |stringJson|;
      return None;
    }

    /**
     * Rewrites every line holding the id pattern with the new description, status and
     * update time. A line that fails to decode aborts before anything is written; otherwise
     * the whole file is rewritten, even when no line matched.
     */
    method UpdateTask(c: JsonCodec, id: int, upd: TaskUpdate, now: DateTime) returns (err: Option<RepoError>)
      modifies this`file
      ensures UpdateLines(c, Lines(old(file)), id, upd, now).None? ==>
        err == Some(UnmarshalFailed) && file == old(file)
      ensures UpdateLines(c, Lines(old(file)), id, upd, now).Some? ==>
        err == None && file == Unlines(UpdateLines(c, Lines(old(file)), id, upd, now).value)
    {
      var updated := RewriteLines(c, Lines(file), id, upd, now);
      if updated.None? {
        return Some(UnmarshalFailed);
      }
      TruncateAndWrite(updated.value);
      return None;
    }

    /** The scan of an update: each line in turn rewritten, stopping at the first that fails to decode. */
    static method RewriteLines(c: JsonCodec, scanned: seq<string>, id: int, upd: TaskUpdate, now: DateTime)
      returns (r: Option<seq<string>>)
      ensures r == UpdateLines(c, scanned, id, upd, now)
    {
      var lines: seq<string> := [];
      var pattern := IdPattern(id);
      var i := 0;
      while i < |scanned|
        invariant 0 <= i <= |scanned|
        invariant UpdateLines(c, scanned[..i], id, upd, now) == Some(lines)
      {
        var line := RewriteLine(c, scanned[i], pattern, id, upd, now);
        if line.None? {
          UpdateLinesFailAt(c, scanned, id, upd, now, i);
          return None;
        }
        RewriteAllStep(scanned, Updater(c, id, upd, now), i, lines, line.value);
        lines := lines + [line.value];
        i := i + 1;
      }
      assert scanned[..i] == scanned;
      return Some(lines);
    }

    /** One scanned line of an update: a line holding the pattern loses its last character, is decoded, updated and re-encoded. */
    static method RewriteLine(c: JsonCodec, line: string, pattern: string, id: int, upd: TaskUpdate, now: DateTime)
      returns (r: Option<string>)
      requires pattern == IdPattern(id)
      ensures r == UpdateLine(c, line, id, upd, now)
    {
      if !Contains(line, pattern) {
        return Some(line);
      }
      var decoded := c.decode(line[..|line| - 1]);
      if decoded.None? {
        return None;
      }
      var task := decoded.value.(description := upd.description, status := upd.status, updatedAt := now);
      return Some(c.encode(task) + line[|line| - 1..]);
    }

    /**
     * Removes the last line holding the id pattern, repairing the comma of the line before
     * it when it was the last record, and rewrites the file. Without a match nothing is
     * written.
     */
    method DeleteTask(id: int) returns (err: Option<RepoError>)
      modifies this`file
      ensures DeleteLines(Lines(old(file)), id).NoMatch? ==> err == Some(DoesNotExist(id)) && file == old(file)
      ensures DeleteLines(Lines(old(file)), id).OutOfRange? ==> err == Some(IndexOutOfRange) && file == old(file)
      ensures DeleteLines(Lines(old(file)), id).Edited? ==>
        err == None && file == Unlines(DeleteLines(Lines(old(file)), id).lines)
    {
      var lines, toDelete := ScanForLastMatch(Lines(file), IdPattern(id));
      ghost var edit := DeleteAt(lines, toDelete);
      assert DeleteLines(Lines(old(file)), id) == edit;
      if toDelete == -1 {
        return Some(DoesNotExist(id));
      }
      if |lines| > 1 && toDelete == |lines| - 2 {
        if toDelete == 0 {
          return Some(IndexOutOfRange);
        }
        lines := lines[toDelete - 1 := TrimComma(lines[toDelete - 1])];
      }
      lines := lines[..toDelete] + lines[toDelete + 1..];
      TruncateAndWrite(lines);
      return None;
    }

    /** The scan of a delete: every line kept, and the index of the last one holding the pattern, or -1. */
    static method ScanForLastMatch(scanned: seq<string>, pattern: string) returns (lines: seq<string>, toDelete: int)
      ensures lines == scanned
      ensures toDelete == LastMatch(scanned, pattern)
    {
      lines := [];
      toDelete := -1;
      var i := 0;
      while i < |scanned|
        invariant 0 <= i <= |scanned| && lines == scanned[..i]
        invariant toDelete == LastMatch(scanned[..i], pattern)
      {
        LastMatchStep(scanned, i, pattern);
        if Contains(scanned[i], pattern) {
          toDelete := |lines|;
        }
        lines := lines + [scanned[i]];
        i := i + 1;
      }
      assert scanned[..i] == scanned;
    }

    /** Empties the file and writes every line followed by a newline through a buffer. */
    method TruncateAndWrite(lines: seq<string>)
      modifies this`file
      ensures file == Unlines(lines)
    {
      file := [];
      var buffer: string := [];
      for i := 0 to |lines|
        invariant buffer == Unlines(lines[..i])
      {
        assert lines[..i + 1] == lines[..i] + [lines[i]];
        UnlinesAppend(lines[..i], lines[i]);
        buffer := buffer + lines[i] + "\n";
      }
      assert lines[..|lines|] == lines;
      file := buffer;
    }
  }
}
