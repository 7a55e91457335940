/**
 * The record codec the store treats as a black box, and the layout of the store's file.
 *
 * The JSON encoder and decoder are library code; the model passes them in as function values
 * and states, in `Lawful`, the facts about them that the store depends on.
 */
module Codec {
  import opened Wrappers
  import opened Models
  import opened Text

  /** The opening and closing markers of the stored array (`firstLineValue`, `lastLineValue`). */
  const FirstLine: string := "[\n"
  const LastLine: string := "\n]"

  const IdKey: string := "\"Id\":"

  /** The text the store's regular expression looks for: `"Id":` and the decimal id. */
  function IdPattern(id: int): (p: string)
    ensures |p| > |IdKey| && p[..|IdKey|] == IdKey
    ensures p[|p| - 1] in Digits
  {
    IdKey + IntToDecimal(id)
  }

  /** Encoding and decoding of one record, and decoding of a whole array. */
  datatype JsonCodec = JsonCodec(
    encode: Task -> string,
    decode: string -> Option<Task>,
    decodeArray: string -> Option<seq<Task>>)

  function EncodeAll(c: JsonCodec, ts: seq<Task>): seq<string>
  {
    seq(|ts|, i requires 0 <= i < |ts| => c.encode(ts[i]))
  }

  /** The file for a list of encoded records: the markers around the records joined by ",\\n". */
  function ArrayText(encs: seq<string>): (s: string)
    ensures |s| >= |FirstLine| + |LastLine|
    ensures s[..|FirstLine|] == FirstLine && s[|s| - |LastLine|..] == LastLine
  {
    FirstLine + Join(encs, ",\n") + LastLine
  }

  function DropLast(s: string): string
  {
    if s == [] then [] else s[..|s| - 1]
  }

  /**
   * What the store assumes of the codec: an encoded record is one line holding `"Id":<id>`
   * and ending with the object's closing brace; decoding inverts encoding; a record cut short
   * by one character and the non-record lines of the file are not objects; and the array
   * decoder reads back a file laid out by `ArrayText`.
   */
  ghost predicate Lawful(c: JsonCodec)
  {
    && (forall t :: RecordLaw(c, t))
    && c.decode("") == None && c.decode("[") == None && c.decode("]") == None
    && (forall ts :: ArrayLaw(c, ts))
  }

  /** The facts about the encoding of one record. */
  ghost predicate RecordLaw(c: JsonCodec, t: Task)
  {
    var e := c.encode(t);
    && '\n' !in e
    && Contains(e, IdPattern(t.id))
    && |e| > 0 && e[|e| - 1] == '}'
    && c.decode(e) == Some(t)
    && c.decode(DropLast(e)) == None
  }

  /** The array decoder reads back the file of the records `ts`. */
  ghost predicate ArrayLaw(c: JsonCodec, ts: seq<Task>)
  {
    c.decodeArray(ArrayText(EncodeAll(c, ts))) == Some(ts)
  }

  /** The line a record occupies in the file: followed by a comma unless it is the last. */
  function RecordLine(encs: seq<string>, i: int): string
    requires 0 <= i < |encs|
  {
    if i < |encs| - 1 then encs[i] + "," else encs[i]
  }

  function RecordLines(encs: seq<string>): seq<string>
  {
    seq(|encs|, i requires 0 <= i < |encs| => RecordLine(encs, i))
  }

  /** The lines of `ArrayText(encs)`; an empty array has one empty line between the brackets. */
  function FileLines(encs: seq<string>): (ls: seq<string>)
    ensures |ls| == (if encs == [] then 3 else |encs| + 2)
    ensures ls[0] == "[" && ls[|ls| - 1] == "]"
  {
    ["["] + (if encs == [] then [""] else RecordLines(encs)) + ["]"]
  }

  lemma {:induction false} UnlinesRecordLines(encs: seq<string>)
    requires encs != []
    ensures Unlines(RecordLines(encs)) == Join(encs, ",\n") + "\n"
  {
    if |encs| == 1 {
      assert RecordLines(encs) == [encs[0]];
    } else {
      assert RecordLines(encs) == [encs[0] + ","] + RecordLines(encs[1..]);
      UnlinesRecordLines(encs[1..]);
    }
  }

  /** Writing the bracket lines around record lines and a newline after each. */
  lemma UnlinesBracketed(middle: seq<string>)
    ensures Unlines(["["] + middle + ["]"]) == "[\n" + Unlines(middle) + "]\n"
  {
    var ls := ["["] + middle + ["]"];
    assert ls[1..] == middle + ["]"];
    UnlinesAppend(middle, "]");
  }

  /** A file laid out by `ArrayText`, rewritten line by line, gains only a final newline. */
  lemma UnlinesFileLines(encs: seq<string>)
    ensures Unlines(FileLines(encs)) == ArrayText(encs) + "\n"
  {
    if encs == [] {
      UnlinesBracketed([""]);
    } else {
      UnlinesBracketed(RecordLines(encs));
      UnlinesRecordLines(encs);
    }
  }

  /** Scanning a file laid out by `ArrayText` gives its bracket lines and record lines. */
  lemma ArrayTextLines(encs: seq<string>)
    requires NoNewlines(encs)
    ensures Lines(ArrayText(encs)) == FileLines(encs)
    ensures Lines(ArrayText(encs) + "\n") == FileLines(encs)
  {
    var fl := FileLines(encs);
    assert NoNewlines(fl) by {
      forall k | 0 <= k < |fl| ensures '\n' !in fl[k] {
        if 1 <= k < |fl| - 1 && encs != [] {
          assert fl[k] == RecordLine(encs, k - 1);
          assert '\n' !in encs[k - 1];
        }
      }
    }
    UnlinesFileLines(encs);
    LinesOfUnlines(fl);
    var text := ArrayText(encs);
    assert text[|text| - 1] == ']';
    LinesIgnoreFinalNewline(text);
  }

  /** The records of a lawful codec are non-empty lines. */
  lemma EncodingsAreLines(c: JsonCodec, ts: seq<Task>)
    requires Lawful(c)
    ensures NoNewlines(EncodeAll(c, ts))
    ensures forall i :: 0 <= i < |ts| ==> EncodeAll(c, ts)[i] != []
  {
    forall i | 0 <= i < |ts| ensures '\n' !in EncodeAll(c, ts)[i] && EncodeAll(c, ts)[i] != [] {
      assert RecordLaw(c, ts[i]);
    }
  }
}
