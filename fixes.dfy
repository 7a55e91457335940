/**
 * Three places where the store, as written, does not do what it evidently means to do: each
 * is shown on the code as written, next to a corrected definition and the property proved of it.
 */
module RepositoryFixes {
  import opened Wrappers
  import opened Models
  import opened Text
  import opened Codec
  import opened Repository
  import opened RepositoryLayout

  // ---------------------------------------------------------------------------------------
  // 1. The cursor moves past the closing marker

  /**
   * Two appends in one session, starting from the empty array the store creates: the second
   * one is written after the closing marker, and the file is no longer an array.
   */
  lemma SecondAppendLandsAfterMarker(e1: string, e2: string)
    ensures AppendStep(FirstLine + LastLine, |FirstLine|, e1) == Some((ArrayText([e1]), |ArrayText([e1])|))
    ensures AppendStep(ArrayText([e1]), |ArrayText([e1])|, e2)
         == Some((ArrayText([e1]) + ",\n" + e2 + LastLine, |ArrayText([e1])| + |e2| + 4))
    ensures ArrayText([e1]) + ",\n" + e2 + LastLine != ArrayText([e1, e2])
  {
    var a1 := ArrayText([e1]);
    EmptyFileIsEmptyArray();
    AppendToLayout([], e1);
    assert [] + [e1] == [e1];
    assert |a1| > |FirstLine|;
    AppendAtEnd(a1, e2);
    AppendAfterMarkerBreaksArray(e1, e2);
  }

  /** An append with the cursor at the end of a file longer than "[\n" writes the separated record and the marker there. */
  lemma AppendAtEnd(text: string, e: string)
    requires |text| != |FirstLine|
    ensures AppendStep(text, |text|, e) == Some((text + ",\n" + e + LastLine, |text| + |e| + 4))
  {
    var data := ",\n" + e + LastLine;
    assert Payload(|text|, e) == data;
    WriteOverTail(text, data, |text|);
    assert text[..|text|] == text;
    assert text + data == text + ",\n" + e + LastLine;
  }

  /** One record followed by a second one after the closing marker is not the array of the two. */
  lemma AppendAfterMarkerBreaksArray(e1: string, e2: string)
    ensures ArrayText([e1]) + ",\n" + e2 + LastLine != ArrayText([e1, e2])
  {
    var bad := ArrayText([e1]) + ",\n" + e2 + LastLine;
    var good := ArrayText([e1, e2]);
    assert Join([e1], ",\n") == e1;
    assert Join([e1, e2], ",\n") == e1 + ",\n" + e2;
    assert bad[2 + |e1|] == '\n';
    assert good[2 + |e1|] == ',';
  }

  /** An append as intended: the cursor ends up before the closing marker it has just written. */
  function AppendStepIntended(file: string, offset: int, enc: string): Option<(string, int)>
  {
    var data := Payload(offset, enc);
    match WriteAt(file, data, offset)
    case None => None
    case Some(f) => Some((f, offset + |data| - |LastLine|))
  }

  /** The appends of `encs`, in order, to the empty array the store creates. */
  function AppendAllIntended(encs: seq<string>): Option<(string, int)>
  {
    if encs == [] then Some((FirstLine + LastLine, |FirstLine|))
    else
      match AppendAllIntended(encs[..|encs| - 1])
      case None => None
      case Some(st) => AppendStepIntended(st.0, st.1, encs[|encs| - 1])
  }

  /** Any number of intended appends leaves the file laid out as an array with the cursor before its closing marker. */
  lemma {:induction false} IntendedAppendsKeepLayout(encs: seq<string>)
    requires NonEmptyParts(encs)
    ensures AppendAllIntended(encs) == Some((ArrayText(encs), |ArrayText(encs)| - |LastLine|))
  {
    if encs == [] {
      EmptyFileIsEmptyArray();
    } else {
      var init := encs[..|encs| - 1];
      var e := encs[|encs| - 1];
      assert NonEmptyParts(init) by {
        forall j | 0 <= j < |init| ensures init[j] != [] {
          assert init[j] == encs[j];
        }
      }
      IntendedAppendsKeepLayout(init);
      assert AppendAllIntended(encs) == AppendStepIntended(ArrayText(init), |ArrayText(init)| - |LastLine|, e);
      assert encs == init + [e];
      IntendedAppendOnLayout(init, e, encs);
    }
  }

  /** One intended append to a laid-out file keeps it laid out, the cursor before the closing marker. */
  lemma IntendedAppendOnLayout(init: seq<string>, e: string, encs: seq<string>)
    requires NonEmptyParts(init) && encs == init + [e]
    ensures AppendStepIntended(ArrayText(init), |ArrayText(init)| - |LastLine|, e)
         == Some((ArrayText(encs), |ArrayText(encs)| - |LastLine|))
  {
    var text, after := ArrayText(init), ArrayText(encs);
    var off := |text| - |LastLine|;
    AppendToLayout(init, e);
    assert AppendStep(text, off, e) == Some((after, |after|));
    IntendedStepIsStep(text, off, e);
  }

  /** The intended append writes what the written one does and leaves the cursor before the closing marker. */
  lemma IntendedStepIsStep(file: string, offset: int, enc: string)
    ensures AppendStep(file, offset, enc).Some? ==>
      AppendStepIntended(file, offset, enc)
        == Some((AppendStep(file, offset, enc).value.0, AppendStep(file, offset, enc).value.1 - |LastLine|))
  {
  }

  // ---------------------------------------------------------------------------------------
  // 2. The id pattern also matches longer ids

  /** The pattern of id `n` is a prefix of the pattern of any id that appends one digit to `n`. */
  lemma LongerIdAlsoMatches(c: JsonCodec, t: Task, n: nat, d: nat)
    requires Lawful(c)
    requires n > 0 && d < 10 && t.id == 10 * n + d
    ensures Contains(c.encode(t), IdPattern(n))
  {
    assert RecordLaw(c, t);
    DecimalAppendDigit(n, d);
    var long := IdPattern(t.id);
    assert long == IdPattern(n) + [Digits[d]];
    assert long[..|IdPattern(n)|] == IdPattern(n);
    ContainsPrefix(c.encode(t), IdPattern(n), long);
  }

  /** Deleting id 1 from a file holding the records with ids 1 and 12, as written, removes record 12. */
  lemma DeleteOfOneRemovesTwelve(c: JsonCodec, t1: Task, t12: Task)
    requires Lawful(c)
    requires t1.id == 1 && t12.id == 12
    ensures DeleteLines(Lines(ArrayText(EncodeAll(c, [t1, t12]))), 1) == Edited(["[", c.encode(t1), "]"])
  {
    var encs := EncodeAll(c, [t1, t12]);
    EncodingsAreLines(c, [t1, t12]);
    LongerIdAlsoMatches(c, t12, 1, 2);
    IdPatternShape(1);
    DeleteRecordOnLayout(encs, 1, IdPattern(1));
    var lines := Lines(ArrayText(encs));
    assert DeleteLines(lines, 1) == DeleteAt(lines, LastMatch(lines, IdPattern(1)));
    assert Remove(encs, 1) == [c.encode(t1)];
    assert RecordLines([c.encode(t1)]) == [c.encode(t1)];
    assert ["["] + [c.encode(t1)] + ["]"] == ["[", c.encode(t1), "]"];
  }

  /** A line holds the record with id `id`: without its trailing comma it decodes to that record. */
  predicate HoldsId(c: JsonCodec, line: string, id: int)
  {
    var r := c.decode(TrimComma(line));
    r.Some? && r.value.id == id
  }

  /** The index of the last line holding the record with id `id`, or -1. */
  function LastWithId(c: JsonCodec, lines: seq<string>, id: int): (k: int)
    ensures -1 <= k < |lines|
    ensures k == -1 <==> forall j :: 0 <= j < |lines| ==> !HoldsId(c, lines[j], id)
    ensures k >= 0 ==> HoldsId(c, lines[k], id) && forall j :: k < j < |lines| ==> !HoldsId(c, lines[j], id)
  {
    if lines == [] then -1
    else if HoldsId(c, lines[|lines| - 1], id) then |lines| - 1
    else LastWithId(c, lines[..|lines| - 1], id)
  }

  /** The line edit of a delete as intended: the line of the record with that id goes. */
  function DeleteLinesExact(c: JsonCodec, lines: seq<string>, id: int): DeleteEdit
  {
    DeleteAt(lines, LastWithId(c, lines, id))
  }

  /** Line `m` of the file of `ts` holds the record with id `id` exactly when it is the line of such a record. */
  lemma FileLineHoldsId(c: JsonCodec, ts: seq<Task>, m: int, id: int)
    requires Lawful(c)
    requires ts != [] && 0 <= m < |ts| + 2
    ensures |FileLines(EncodeAll(c, ts))| == |ts| + 2
    ensures HoldsId(c, FileLines(EncodeAll(c, ts))[m], id) <==> 1 <= m <= |ts| && ts[m - 1].id == id
  {
    var encs := EncodeAll(c, ts);
    assert FileLines(encs) == ["["] + RecordLines(encs) + ["]"];
    BracketedAt(RecordLines(encs), m);
    if 1 <= m <= |ts| {
      var tail := if m - 1 < |ts| - 1 then "," else [];
      assert RecordLine(encs, m - 1) == c.encode(ts[m - 1]) + tail;
      RecordLineHoldsId(c, ts[m - 1], tail, id);
    } else {
      MarkerLinesHoldNoId(c, id);
    }
  }

  lemma MarkerLinesHoldNoId(c: JsonCodec, id: int)
    requires Lawful(c)
    ensures !HoldsId(c, "[", id) && !HoldsId(c, "]", id)
  {
    assert TrimComma("[") == "[";
    assert TrimComma("]") == "]";
  }

  /** A record line, with or without its comma, holds exactly the id of its record. */
  lemma RecordLineHoldsId(c: JsonCodec, t: Task, tail: string, id: int)
    requires Lawful(c)
    requires tail == [] || tail == ","
    ensures HoldsId(c, c.encode(t) + tail, id) <==> t.id == id
  {
    var e := c.encode(t);
    assert RecordLaw(c, t);
    if tail == [] {
      assert e + tail == e;
    }
    assert TrimComma(e + tail) == e;
  }

  /**
   * On a laid-out file, the intended delete of the id of record `k`, when no later record has
   * that id, removes exactly that record's line.
   */
  lemma ExactDeleteOnLayout(c: JsonCodec, ts: seq<Task>, k: int)
    requires Lawful(c)
    requires 0 <= k < |ts|
    requires forall j :: k < j < |ts| ==> ts[j].id != ts[k].id
    ensures DeleteLinesExact(c, Lines(ArrayText(EncodeAll(c, ts))), ts[k].id)
         == Edited(["["] + RecordLines(EncodeAll(c, Remove(ts, k))) + ["]"])
  {
    var encs := EncodeAll(c, ts);
    EncodingsAreLines(c, ts);
    ArrayTextLines(encs);
    LastWithIdOnLayout(c, ts, k);
    DeleteOnLayout(encs, k);
    EncodeAllRemove(c, ts, k);
  }

  /** In the file of `ts`, the last line holding the id of record `k` is its line when no later record has that id. */
  lemma LastWithIdOnLayout(c: JsonCodec, ts: seq<Task>, k: int)
    requires Lawful(c)
    requires 0 <= k < |ts|
    requires forall j :: k < j < |ts| ==> ts[j].id != ts[k].id
    ensures LastWithId(c, FileLines(EncodeAll(c, ts)), ts[k].id) == k + 1
  {
    var lines, id := FileLines(EncodeAll(c, ts)), ts[k].id;
    FileLineHoldsId(c, ts, k + 1, id);
    forall m | k + 1 < m < |lines| ensures !HoldsId(c, lines[m], id) {
      FileLineHoldsId(c, ts, m, id);
    }
  }

  /** The intended delete of id 1 keeps record 12. */
  lemma ExactDeleteOfOneKeepsTwelve(c: JsonCodec, t1: Task, t12: Task)
    requires Lawful(c)
    requires t1.id == 1 && t12.id == 12
    ensures DeleteLinesExact(c, Lines(ArrayText(EncodeAll(c, [t1, t12]))), 1) == Edited(["[", c.encode(t12), "]"])
  {
    var ts, e12 := [t1, t12], c.encode(t12);
    assert ts[1].id != ts[0].id;
    ExactDeleteOnLayout(c, ts, 0);
    assert Remove(ts, 0) == [t12];
    assert EncodeAll(c, [t12]) == [e12];
    assert RecordLines([e12]) == [e12];
    assert ["["] + [e12] + ["]"] == ["[", e12, "]"];
  }

  // ---------------------------------------------------------------------------------------
  // 3. The update always cuts the last character

  /**
   * One scanned line of an update as intended: only a trailing comma is cut before decoding,
   * and only that comma is put back.
   */
  function UpdateLineIntended(c: JsonCodec, line: string, id: int, upd: TaskUpdate, now: DateTime): Option<string>
  {
    if Contains(line, IdPattern(id)) then
      var body := TrimComma(line);
      match c.decode(body)
      case None => None
      case Some(t) => Some(c.encode(ApplyUpdate(t, upd, now)) + line[|body|..])
    else Some(line)
  }

  /** The intended line update of `id`, as a rewrite of one scanned line. */
  function IntendedUpdater(c: JsonCodec, id: int, upd: TaskUpdate, now: DateTime): string -> Option<string>
  {
    line => UpdateLineIntended(c, line, id, upd, now)
  }

  /** All lines of an intended update, scanned as the store scans them. */
  function UpdateLinesIntended(c: JsonCodec, lines: seq<string>, id: int, upd: TaskUpdate, now: DateTime): Option<seq<string>>
  {
    RewriteAll(lines, IntendedUpdater(c, id, upd, now))
  }

  lemma UpdateLinesIntendedFromEach(c: JsonCodec, lines: seq<string>, id: int, upd: TaskUpdate, now: DateTime, out: seq<string>)
    requires |out| == |lines|
    requires forall k :: 0 <= k < |lines| ==> UpdateLineIntended(c, lines[k], id, upd, now) == Some(out[k])
    ensures UpdateLinesIntended(c, lines, id, upd, now) == Some(out)
  {
    RewriteAllFromEach(lines, IntendedUpdater(c, id, upd, now), out);
  }

  /** A record line, with or without its comma, is rewritten with the updated record and keeps what followed it. */
  lemma IntendedUpdateOfRecord(c: JsonCodec, t: Task, tail: string, upd: TaskUpdate, now: DateTime)
    requires Lawful(c)
    requires tail == [] || tail == ","
    ensures UpdateLineIntended(c, c.encode(t) + tail, t.id, upd, now) == Some(c.encode(ApplyUpdate(t, upd, now)) + tail)
  {
    var e := c.encode(t);
    assert RecordLaw(c, t);
    if tail == [] {
      assert e + tail == e;
      assert TrimComma(e) == e;
      assert e[|e|..] == [];
    } else {
      var line := e + ",";
      ContainsInLonger(e, IdPattern(t.id), [], ",");
      assert [] + e + "," == line;
      assert TrimComma(line) == e;
      assert line[|e|..] == ",";
    }
  }

  /** Line `m` of the file under an intended update of record `k`. */
  lemma IntendedUpdatedFileLine(c: JsonCodec, ts: seq<Task>, k: int, upd: TaskUpdate, now: DateTime, m: int)
    requires Lawful(c)
    requires 0 <= k < |ts| && 0 <= m < |ts| + 2
    requires forall j :: 0 <= j < |ts| && j != k ==> !Contains(c.encode(ts[j]), IdPattern(ts[k].id))
    ensures UpdateLineIntended(c, FileLines(EncodeAll(c, ts))[m], ts[k].id, upd, now)
         == Some(FileLines(EncodeAll(c, ts[k := ApplyUpdate(ts[k], upd, now)]))[m])
  {
    var id := ts[k].id;
    var encs := EncodeAll(c, ts);
    var encs' := EncodeAll(c, ts[k := ApplyUpdate(ts[k], upd, now)]);
    assert FileLines(encs) == ["["] + RecordLines(encs) + ["]"];
    assert FileLines(encs') == ["["] + RecordLines(encs') + ["]"];
    BracketedAt(RecordLines(encs), m);
    BracketedAt(RecordLines(encs'), m);
    if m - 1 == k {
      var tail := if k < |ts| - 1 then "," else [];
      assert RecordLine(encs, k) == c.encode(ts[k]) + tail;
      assert RecordLine(encs', k) == c.encode(ApplyUpdate(ts[k], upd, now)) + tail;
      IntendedUpdateOfRecord(c, ts[k], tail, upd, now);
    } else {
      IdPatternShape(id);
      FileLineMatches(encs, m, IdPattern(id));
      if 1 <= m <= |ts| {
        assert encs'[m - 1] == encs[m - 1];
      }
    }
  }

  /**
   * The intended update of record `k` of a laid-out file, when no other record holds its id
   * pattern, replaces exactly that record's line, the last record included.
   */
  lemma IntendedUpdateOnLayout(c: JsonCodec, ts: seq<Task>, k: int, upd: TaskUpdate, now: DateTime)
    requires Lawful(c)
    requires 0 <= k < |ts|
    requires forall j :: 0 <= j < |ts| && j != k ==> !Contains(c.encode(ts[j]), IdPattern(ts[k].id))
    ensures UpdateLinesIntended(c, Lines(ArrayText(EncodeAll(c, ts))), ts[k].id, upd, now)
         == Some(FileLines(EncodeAll(c, ts[k := ApplyUpdate(ts[k], upd, now)])))
  {
    var encs := EncodeAll(c, ts);
    EncodingsAreLines(c, ts);
    ArrayTextLines(encs);
    var lines := FileLines(encs);
    var out := FileLines(EncodeAll(c, ts[k := ApplyUpdate(ts[k], upd, now)]));
    forall m | 0 <= m < |lines| ensures UpdateLineIntended(c, lines[m], ts[k].id, upd, now) == Some(out[m]) {
      IntendedUpdatedFileLine(c, ts, k, upd, now, m);
    }
    UpdateLinesIntendedFromEach(c, lines, ts[k].id, upd, now, out);
  }
}
