/**
 * What the store's operations, as written, do to a file laid out as the store itself lays
 * it out: "[\n", the encoded records joined by ",\n", then "\n]".
 */
module RepositoryLayout {
  import opened Wrappers
  import opened Models
  import opened Text
  import opened Codec
  import opened Repository

  predicate NonEmptyParts(encs: seq<string>) {
    forall i :: 0 <= i < |encs| ==> encs[i] != []
  }

  lemma JoinNonEmpty(encs: seq<string>, sep: string)
    requires encs != [] && encs[0] != []
    ensures |Join(encs, sep)| > 0
  {
  }

  lemma EncodeAllAppend(c: JsonCodec, ts: seq<Task>, t: Task)
    ensures EncodeAll(c, ts + [t]) == EncodeAll(c, ts) + [c.encode(t)]
  {
    assert EncodeAll(c, ts + [t])[|ts|] == c.encode(t);
  }

  lemma EncodeAllRemove(c: JsonCodec, ts: seq<Task>, k: int)
    requires 0 <= k < |ts|
    ensures EncodeAll(c, Remove(ts, k)) == Remove(EncodeAll(c, ts), k)
  {
  }

  lemma EncodeAllUpdate(c: JsonCodec, ts: seq<Task>, k: int, t: Task)
    requires 0 <= k < |ts|
    ensures EncodeAll(c, ts[k := t]) == EncodeAll(c, ts)[k := c.encode(t)]
  {
  }

  // ---------------------------------------------------------------------------------------
  // Open and append

  /** A write that reaches past the end replaces the tail from `off` on. */
  lemma WriteOverTail(content: string, data: string, off: int)
    requires 0 <= off <= |content| <= off + |data|
    ensures WriteAt(content, data, off) == Some(content[..off] + data)
  {
    assert content[..off] + data + [] == content[..off] + data;
  }

  /** Opening a new or empty file writes the empty array and puts the cursor where its first record goes. */
  lemma EmptyFileIsEmptyArray()
    ensures FirstLine + LastLine == ArrayText([]) == "[\n\n]"
    ensures |FirstLine| == |ArrayText([])| - |LastLine| == 2
  {
  }

  /**
   * An append at the cursor of a laid-out file leaves the file laid out with the new record
   * last, and the cursor at the very end of the file, after the closing marker.
   */
  lemma AppendToLayout(encs: seq<string>, e: string)
    requires NonEmptyParts(encs)
    ensures AppendStep(ArrayText(encs), |ArrayText(encs)| - |LastLine|, e)
         == Some((ArrayText(encs + [e]), |ArrayText(encs + [e])|))
  {
    var text := ArrayText(encs);
    var off := |text| - |LastLine|;
    var data := Payload(off, e);
    if encs == [] {
      assert off == |FirstLine|;
      WriteOverTail(text, data, off);
      assert text[..off] + data == ArrayText([e]);
    } else {
      JoinNonEmpty(encs, ",\n");
      assert off != |FirstLine|;
      JoinAppend(encs, e, ",\n");
      var head := FirstLine + Join(encs, ",\n");
      assert text == head + LastLine;
      assert text[..off] == head;
      assert data == ",\n" + e + LastLine;
      WriteOverTail(text, data, off);
      assert ArrayText(encs + [e]) == head + data;
    }
  }

  /** Opening a laid-out file of records `ts` loads the id of the last one, or 0 for none. */
  lemma LoadOfLayout(c: JsonCodec, ts: seq<Task>)
    requires Lawful(c)
    ensures LoadSequenceId(c, ArrayText(EncodeAll(c, ts))) == Some(if ts == [] then 0 else ts[|ts| - 1].id)
  {
    assert ArrayLaw(c, ts);
  }

  /** An append of the record `x` to the laid-out file of `ts` gives the laid-out file of `ts + [x]`. */
  lemma AppendRecord(c: JsonCodec, ts: seq<Task>, x: Task)
    requires Lawful(c)
    ensures var text := ArrayText(EncodeAll(c, ts));
            var text' := ArrayText(EncodeAll(c, ts + [x]));
            AppendStep(text, |text| - |LastLine|, c.encode(x)) == Some((text', |text'|))
  {
    var encs := EncodeAll(c, ts);
    assert NonEmptyParts(encs) by {
      EncodingsAreLines(c, ts);
    }
    AppendToLayout(encs, c.encode(x));
    EncodeAllAppend(c, ts, x);
  }

  /**
   * Opening a laid-out file of records `ts` loads the last id (0 for none) and an append
   * then adds the record under the next id at the end of the array.
   */
  lemma OpenThenAppend(c: JsonCodec, ts: seq<Task>, t: Task, last: int)
    requires Lawful(c)
    requires last == if ts == [] then 0 else ts[|ts| - 1].id
    ensures var text := ArrayText(EncodeAll(c, ts));
            var text' := ArrayText(EncodeAll(c, ts + [t.(id := last + 1)]));
            && LoadSequenceId(c, text) == Some(last)
            && AppendStep(text, |text| - |LastLine|, c.encode(t.(id := last + 1))) == Some((text', |text'|))
  {
    LoadOfLayout(c, ts);
    AppendRecord(c, ts, t.(id := last + 1));
  }

  // ---------------------------------------------------------------------------------------
  // Matching record lines

  /** What matching relies on about an id pattern: it is longer than a bracket line and does not end in a comma. */
  predicate PatternShape(p: string) {
    |p| > 1 && p[|p| - 1] != ','
  }

  lemma IdPatternShape(id: int)
    ensures PatternShape(IdPattern(id))
  {
    var p := IdPattern(id);
    assert p[|p| - 1] in Digits;
  }

  /** The line of a record holds exactly the patterns its encoding holds. */
  lemma RecordLineMatches(encs: seq<string>, i: int, p: string)
    requires 0 <= i < |encs| && PatternShape(p)
    ensures Contains(RecordLine(encs, i), p) <==> Contains(encs[i], p)
  {
    if i < |encs| - 1 {
      ContainsWithComma(encs[i], p);
      if Contains(encs[i], p) {
        ContainsInLonger(encs[i], p, [], ",");
        assert [] + encs[i] + "," == RecordLine(encs, i);
      }
    }
  }

  /** Line `m` of a laid-out file holds `p` exactly when it is the line of a record whose encoding does. */
  lemma FileLineMatches(encs: seq<string>, m: int, p: string)
    requires 0 <= m < |FileLines(encs)| && PatternShape(p)
    ensures Contains(FileLines(encs)[m], p) <==> 1 <= m <= |encs| && Contains(encs[m - 1], p)
  {
    if 1 <= m <= |encs| {
      assert FileLines(encs)[m] == RecordLine(encs, m - 1);
      RecordLineMatches(encs, m - 1, p);
    } else {
    }
  }

  // ---------------------------------------------------------------------------------------
  // Update

  /** A record line followed by a comma is rewritten with the updated record and keeps its comma. */
  lemma UpdateRecordWithComma(c: JsonCodec, t: Task, upd: TaskUpdate, now: DateTime)
    requires Lawful(c)
    ensures UpdateLine(c, c.encode(t) + ",", t.id, upd, now) == Some(c.encode(ApplyUpdate(t, upd, now)) + ",")
  {
    var line := c.encode(t) + ",";
    assert RecordLaw(c, t);
    ContainsInLonger(c.encode(t), IdPattern(t.id), [], ",");
    assert [] + c.encode(t) + "," == line;
    assert line[..|line| - 1] == c.encode(t);
    assert line[|line| - 1..] == ",";
  }

  /**
   * Updating a record other than the last, when no other record holds its id pattern,
   * replaces exactly that record's line; every other line, and the layout, are kept.
   */
  lemma UpdateOnLayout(c: JsonCodec, ts: seq<Task>, k: int, upd: TaskUpdate, now: DateTime)
    requires Lawful(c)
    requires 0 <= k < |ts| - 1
    requires forall j :: 0 <= j < |ts| && j != k ==> !Contains(c.encode(ts[j]), IdPattern(ts[k].id))
    ensures UpdateLines(c, Lines(ArrayText(EncodeAll(c, ts))), ts[k].id, upd, now)
         == Some(FileLines(EncodeAll(c, ts[k := ApplyUpdate(ts[k], upd, now)])))
  {
    var encs := EncodeAll(c, ts);
    EncodingsAreLines(c, ts);
    ArrayTextLines(encs);
    var lines := FileLines(encs);
    var out := FileLines(EncodeAll(c, ts[k := ApplyUpdate(ts[k], upd, now)]));
    forall m | 0 <= m < |lines| ensures UpdateLine(c, lines[m], ts[k].id, upd, now) == Some(out[m]) {
      UpdatedFileLine(c, ts, k, upd, now, m);
    }
    UpdateLinesFromEach(c, lines, ts[k].id, upd, now, out);
  }

  /** Line `m` of the file under an update of record `k`. */
  lemma UpdatedFileLine(c: JsonCodec, ts: seq<Task>, k: int, upd: TaskUpdate, now: DateTime, m: int)
    requires Lawful(c)
    requires 0 <= k < |ts| - 1 && 0 <= m < |ts| + 2
    requires forall j :: 0 <= j < |ts| && j != k ==> !Contains(c.encode(ts[j]), IdPattern(ts[k].id))
    ensures UpdateLine(c, FileLines(EncodeAll(c, ts))[m], ts[k].id, upd, now)
         == Some(FileLines(EncodeAll(c, ts[k := ApplyUpdate(ts[k], upd, now)]))[m])
  {
    var id := ts[k].id;
    var encs := EncodeAll(c, ts);
    var encs' := EncodeAll(c, ts[k := ApplyUpdate(ts[k], upd, now)]);
    assert FileLines(encs) == ["["] + RecordLines(encs) + ["]"];
    assert FileLines(encs') == ["["] + RecordLines(encs') + ["]"];
    BracketedAt(RecordLines(encs), m);
    BracketedAt(RecordLines(encs'), m);
    if m - 1 == k {
      UpdateRecordWithComma(c, ts[k], upd, now);
    } else {
      IdPatternShape(id);
      FileLineMatches(encs, m, IdPattern(id));
      if 1 <= m <= |ts| {
        assert encs'[m - 1] == encs[m - 1];
      }
    }
  }

  /** The last record has no comma after it, so dropping its last character leaves text that does not decode: updating it always fails. */
  lemma UpdateOfLastRecordFails(c: JsonCodec, ts: seq<Task>, upd: TaskUpdate, now: DateTime)
    requires Lawful(c)
    requires ts != []
    ensures UpdateLines(c, Lines(ArrayText(EncodeAll(c, ts))), ts[|ts| - 1].id, upd, now).None?
  {
    var n := |ts|;
    var encs := EncodeAll(c, ts);
    EncodingsAreLines(c, ts);
    ArrayTextLines(encs);
    var lines := FileLines(encs);
    assert Lines(ArrayText(encs)) == lines;
    LastRecordLine(encs);
    assert lines[n] == c.encode(ts[n - 1]);
    UncutLineFails(c, lines, n, ts[n - 1], upd, now);
  }

  lemma LastRecordLine(encs: seq<string>)
    requires encs != []
    ensures |FileLines(encs)| == |encs| + 2 && FileLines(encs)[|encs|] == encs[|encs| - 1]
  {
    BracketedAt(RecordLines(encs), |encs|);
  }

  /** A line that is a whole record, with nothing after its closing brace, fails to update. */
  lemma UncutLineFails(c: JsonCodec, lines: seq<string>, i: int, t: Task, upd: TaskUpdate, now: DateTime)
    requires Lawful(c)
    requires 0 <= i < |lines| && lines[i] == c.encode(t)
    ensures UpdateLines(c, lines, t.id, upd, now).None?
  {
    var line := lines[i];
    assert RecordLaw(c, t);
    assert Contains(line, IdPattern(t.id));
    assert line[..|line| - 1] == DropLast(c.encode(t));
    assert c.decode(line[..|line| - 1]) == None;
    UpdateLinesFailAt(c, lines, t.id, upd, now, i);
  }

  /** With no line holding the id pattern, an update is not an error and rewrites the same lines. */
  lemma UpdateWithoutMatch(c: JsonCodec, lines: seq<string>, id: int, upd: TaskUpdate, now: DateTime)
    requires forall k :: 0 <= k < |lines| ==> !Contains(lines[k], IdPattern(id))
    ensures UpdateLines(c, lines, id, upd, now) == Some(lines)
  {
    UpdateLinesFromEach(c, lines, id, upd, now, lines);
  }

  /** The lines an update writes hold no newline, so the rewritten file scans back to them. */
  lemma UpdateRewriteRescans(c: JsonCodec, lines: seq<string>, id: int, upd: TaskUpdate, now: DateTime)
    requires Lawful(c)
    requires NoNewlines(lines)
    requires UpdateLines(c, lines, id, upd, now).Some?
    ensures Lines(Unlines(UpdateLines(c, lines, id, upd, now).value)) == UpdateLines(c, lines, id, upd, now).value
  {
    var out := UpdateLines(c, lines, id, upd, now).value;
    UpdateLinesEach(c, lines, id, upd, now);
    forall k | 0 <= k < |out| ensures '\n' !in out[k] {
      assert UpdateLine(c, lines[k], id, upd, now) == Some(out[k]);
      UpdateLineIsLine(c, lines[k], id, upd, now);
    }
    LinesOfUnlines(out);
  }

  lemma UpdateLineIsLine(c: JsonCodec, line: string, id: int, upd: TaskUpdate, now: DateTime)
    requires Lawful(c)
    requires '\n' !in line
    requires UpdateLine(c, line, id, upd, now).Some?
    ensures '\n' !in UpdateLine(c, line, id, upd, now).value
  {
    if Contains(line, IdPattern(id)) {
      var t := c.decode(line[..|line| - 1]).value;
      var e := c.encode(ApplyUpdate(t, upd, now));
      assert RecordLaw(c, ApplyUpdate(t, upd, now));
      assert line[|line| - 1..] == [line[|line| - 1]];
      assert '\n' != line[|line| - 1];
      assert UpdateLine(c, line, id, upd, now).value == e + [line[|line| - 1]];
    }
  }

  // ---------------------------------------------------------------------------------------
  // Delete

  /**
   * Deleting the line of record `k` from a laid-out file leaves the bracket lines around the
   * line layout of the remaining records: the comma repair strips the comma of the new last
   * record when the last one goes.
   */
  lemma DeleteOnLayout(encs: seq<string>, k: int)
    requires 0 <= k < |encs|
    ensures DeleteAt(FileLines(encs), k + 1) == Edited(["["] + RecordLines(Remove(encs, k)) + ["]"])
  {
    var lines := FileLines(encs);
    assert lines == ["["] + RecordLines(encs) + ["]"];
    var expected := ["["] + RecordLines(Remove(encs, k)) + ["]"];
    var r := DeleteAt(lines, k + 1);
    DeleteAtLines(lines, k + 1);
    var out := r.lines;
    forall j | 0 <= j < |expected| ensures out[j] == expected[j] {
      DeletedLine(encs, k, j, lines, out);
    }
    assert out == expected;
  }

  /** Line `j` after the delete of record `k`, for lines `out` related to the file's lines as a delete relates them. */
  lemma DeletedLine(encs: seq<string>, k: int, j: int, lines: seq<string>, out: seq<string>)
    requires 0 <= k < |encs| && 0 <= j <= |encs|
    requires lines == ["["] + RecordLines(encs) + ["]"]
    requires |out| == |encs| + 1
    requires forall i :: 0 <= i < k + 1 ==>
      out[i] == if i == k && k + 1 == |encs| then TrimComma(lines[i]) else lines[i]
    requires forall i :: k + 1 <= i < |out| ==> out[i] == lines[i + 1]
    ensures out[j] == (["["] + RecordLines(Remove(encs, k)) + ["]"])[j]
  {
    var n := |encs|;
    var rem := Remove(encs, k);
    BracketedAt(RecordLines(encs), j);
    BracketedAt(RecordLines(encs), j + 1);
    BracketedAt(RecordLines(rem), j);
    if j == 0 {
      assert out[0] == if k == 0 && n == 1 then TrimComma("[") else "[";
    } else if j <= k {
      assert out[j] == if j == k && k + 1 == n then TrimComma(RecordLine(encs, j - 1)) else RecordLine(encs, j - 1);
      KeptRecordLine(encs, k, j);
    } else if j < n {
      assert out[j] == lines[j + 1] == RecordLine(encs, j);
      assert rem[j - 1] == encs[j];
    } else {
      assert out[j] == lines[j + 1] == "]";
    }
  }

  /** Line `j` of the bracket lines around `middle`. */
  lemma BracketedAt(middle: seq<string>, j: int)
    ensures 0 <= j <= |middle| + 1 ==>
      (["["] + middle + ["]"])[j] == if j == 0 then "[" else if j <= |middle| then middle[j - 1] else "]"
  {
  }

  /** A record before the deleted one keeps its line, except that the new last record loses its comma. */
  lemma KeptRecordLine(encs: seq<string>, k: int, j: int)
    requires 0 <= k < |encs| && 1 <= j <= k
    ensures (if j == k && k == |encs| - 1 then TrimComma(RecordLine(encs, j - 1)) else RecordLine(encs, j - 1))
         == RecordLine(Remove(encs, k), j - 1)
  {
    var rem := Remove(encs, k);
    assert rem[j - 1] == encs[j - 1];
    assert TrimComma(encs[j - 1] + ",") == encs[j - 1];
  }

  /**
   * Deleting the id of record `k` when no later record holds its id pattern removes exactly
   * that record's line and keeps the others in order.
   */
  lemma DeleteTaskOnLayout(c: JsonCodec, ts: seq<Task>, k: int)
    requires Lawful(c)
    requires 0 <= k < |ts|
    requires forall j :: k < j < |ts| ==> !Contains(c.encode(ts[j]), IdPattern(ts[k].id))
    ensures DeleteLines(Lines(ArrayText(EncodeAll(c, ts))), ts[k].id)
         == Edited(["["] + RecordLines(EncodeAll(c, Remove(ts, k))) + ["]"])
  {
    var encs := EncodeAll(c, ts);
    EncodingsAreLines(c, ts);
    IdPatternShape(ts[k].id);
    assert RecordLaw(c, ts[k]);
    DeleteRecordOnLayout(encs, k, IdPattern(ts[k].id));
    EncodeAllRemove(c, ts, k);
  }

  /** The line edit of a delete of a laid-out file whose record `k` is the last holding the pattern. */
  lemma DeleteRecordOnLayout(encs: seq<string>, k: int, p: string)
    requires NoNewlines(encs) && PatternShape(p)
    requires 0 <= k < |encs| && Contains(encs[k], p)
    requires forall j :: k < j < |encs| ==> !Contains(encs[j], p)
    ensures DeleteAt(Lines(ArrayText(encs)), LastMatch(Lines(ArrayText(encs)), p))
         == Edited(["["] + RecordLines(Remove(encs, k)) + ["]"])
  {
    ArrayTextLines(encs);
    var lines := FileLines(encs);
    FileLineMatches(encs, k + 1, p);
    forall m | k + 1 < m < |lines| ensures !Contains(lines[m], p) {
      FileLineMatches(encs, m, p);
    }
    assert LastMatch(lines, p) == k + 1;
    DeleteOnLayout(encs, k);
  }

  /**
   * The file a delete writes: the remaining records laid out with a final newline, or
   * "[\n]\n" when none remain, which is not the empty array the store creates.
   */
  lemma RewrittenAfterDelete(encs: seq<string>)
    ensures Unlines(["["] + RecordLines(encs) + ["]"]) == if encs == [] then "[\n]\n" else ArrayText(encs) + "\n"
    ensures encs == [] ==> Unlines(["["] + RecordLines(encs) + ["]"]) != ArrayText([])
  {
    UnlinesBracketed(RecordLines(encs));
    if encs == [] {
      assert ArrayText([])[2] == '\n' != ']' == "[\n]\n"[2];
    } else {
      UnlinesRecordLines(encs);
    }
  }

  /** The lines a delete writes hold no newline, so the rewritten file scans back to them. */
  lemma DeleteRewriteRescans(lines: seq<string>, id: int)
    requires NoNewlines(lines)
    ensures DeleteLines(lines, id).Edited? ==> Lines(Unlines(DeleteLines(lines, id).lines)) == DeleteLines(lines, id).lines
  {
    var k := LastMatch(lines, IdPattern(id));
    if DeleteAt(lines, k).Edited? {
      var out := DeleteAt(lines, k).lines;
      DeleteAtLines(lines, k);
      forall j | 0 <= j < |out| ensures '\n' !in out[j] {
        if j < k {
          TrimCommaKeepsLine(lines[j]);
        }
      }
      LinesOfUnlines(out);
    }
  }

  lemma TrimCommaKeepsLine(l: string)
    requires '\n' !in l
    ensures '\n' !in TrimComma(l)
  {
    if |l| > 0 && l[|l| - 1] == ',' {
      assert forall x :: x in l[..|l| - 1] ==> x in l;
    }
  }
}
