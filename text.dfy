/**
 * Text helpers the task store relies on: the line splitting of a line scanner, the
 * substring test a literal regular expression performs, decimal formatting of integers and
 * joining with a separator.
 */
module Text {

  /** The index of the first newline of `s`, or `|s|` when there is none. */
  function NewlineIndex(s: string): (i: nat)
    ensures i <= |s|
    ensures i < |s| ==> s[i] == '\n'
    ensures '\n' !in s[..i]
  {
    if s == [] || s[0] == '\n' then 0 else 1 + NewlineIndex(s[1..])
  }

  /**
   * The tokens a line scanner yields: the text between newlines, the final text after the
   * last newline when it is not empty, and nothing for empty input.
   */
  function Lines(s: string): (ls: seq<string>)
    ensures forall k :: 0 <= k < |ls| ==> '\n' !in ls[k]
    ensures s != [] ==> ls != []
    decreases |s|
  {
    if s == [] then []
    else
      var i := NewlineIndex(s);
      if i == |s| then [s] else [s[..i]] + Lines(s[i + 1..])
  }

  /** Every line followed by a newline, as a buffered rewrite of the lines produces. */
  function Unlines(ls: seq<string>): (s: string)
    ensures s == [] <==> ls == []
    ensures ls != [] ==> s[|s| - 1] == '\n'
  {
    if ls == [] then [] else ls[0] + "\n" + Unlines(ls[1..])
  }

  predicate NoNewlines(ls: seq<string>) {
    forall k :: 0 <= k < |ls| ==> '\n' !in ls[k]
  }

  lemma {:induction false} UnlinesAppend(ls: seq<string>, l: string)
    ensures Unlines(ls + [l]) == Unlines(ls) + l + "\n"
  {
    if ls == [] {
      assert ls + [l] == [l];
    } else {
      assert (ls + [l])[1..] == ls[1..] + [l];
      UnlinesAppend(ls[1..], l);
    }
  }

  /** Scanning text written line by line gives back exactly those lines. */
  lemma {:induction false} LinesOfUnlines(ls: seq<string>)
    requires NoNewlines(ls)
    ensures Lines(Unlines(ls)) == ls
  {
    if ls != [] {
      var s := Unlines(ls);
      var l := ls[0];
      assert s == l + ("\n" + Unlines(ls[1..]));
      NewlineAt(l, "\n" + Unlines(ls[1..]));
      assert s[..|l|] == l;
      assert s[|l| + 1..] == Unlines(ls[1..]);
      LinesOfUnlines(ls[1..]);
    }
  }

  lemma NewlineAt(l: string, rest: string)
    requires '\n' !in l
    requires rest != [] && rest[0] == '\n'
    ensures NewlineIndex(l + rest) == |l|
  {
    assert (l + rest)[|l|] == '\n';
    assert forall j :: 0 <= j < |l| ==> (l + rest)[j] == l[j];
  }

  /** `s` ending in a newline: unchanged when it is empty or already does. */
  function WithFinalNewline(s: string): string
  {
    if s == [] || s[|s| - 1] == '\n' then s else s + "\n"
  }

  /** Writing the scanned lines back gives the text with one newline added unless it already ended in one. */
  lemma {:induction false} UnlinesOfLines(s: string)
    ensures Unlines(Lines(s)) == WithFinalNewline(s)
    decreases |s|
  {
    if s != [] {
      var i := NewlineIndex(s);
      if i == |s| {
        UnlinesOfLastLine(s);
      } else {
        UnlinesAtNewline(s, i);
        UnlinesOfLines(s[i + 1..]);
        FinalNewlineAfter(s[..i], s[i + 1..]);
      }
    }
  }

  lemma UnlinesOfLastLine(s: string)
    requires s != [] && NewlineIndex(s) == |s|
    ensures Unlines(Lines(s)) == WithFinalNewline(s)
  {
    assert Lines(s) == [s];
    assert Unlines([s]) == s + "\n" + Unlines([]);
  }

  lemma UnlinesAtNewline(s: string, i: nat)
    requires i == NewlineIndex(s) < |s|
    ensures s == s[..i] + "\n" + s[i + 1..]
    ensures Unlines(Lines(s)) == s[..i] + "\n" + Unlines(Lines(s[i + 1..]))
  {
    SplitAtNewline(s, i);
    assert Lines(s) == [s[..i]] + Lines(s[i + 1..]);
    UnlinesCons(s[..i], Lines(s[i + 1..]));
  }

  lemma SplitAtNewline(s: string, i: int)
    requires 0 <= i < |s| && s[i] == '\n'
    ensures s == s[..i] + "\n" + s[i + 1..]
  {
    assert s[..i] + [s[i]] + s[i + 1..] == s;
  }

  lemma FinalNewlineAfter(head: string, rest: string)
    ensures WithFinalNewline(head + "\n" + rest) == head + "\n" + WithFinalNewline(rest)
  {
    var s := head + "\n" + rest;
    if rest == [] {
      assert s == head + "\n" + [];
    } else {
      assert s[|s| - 1] == rest[|rest| - 1];
      if rest[|rest| - 1] != '\n' {
        assert s + "\n" == head + "\n" + (rest + "\n");
      }
    }
  }

  lemma UnlinesCons(l: string, ls: seq<string>)
    ensures Unlines([l] + ls) == l + "\n" + Unlines(ls)
  {
    assert ([l] + ls)[1..] == ls;
  }

  /** A final newline adds no token to text that does not already end in one. */
  lemma {:induction false} LinesIgnoreFinalNewline(s: string)
    requires s != [] && s[|s| - 1] != '\n'
    ensures Lines(s + "\n") == Lines(s)
    decreases |s|
  {
    var t := s + "\n";
    var i := NewlineIndex(s);
    if i == |s| {
      assert NewlineIndex(t) == |s| by {
        NewlineAt(s, "\n");
      }
      assert t[..|s|] == s;
      assert t[|s| + 1..] == [];
    } else {
      assert NewlineIndex(t) == i by {
        PrefixNewlineIndex(s, "\n");
      }
      assert t[..i] == s[..i];
      var rest := s[i + 1..];
      assert t[i + 1..] == rest + "\n";
      assert i < |s| - 1;
      assert rest[|rest| - 1] == s[|s| - 1];
      LinesIgnoreFinalNewline(rest);
    }
  }

  lemma PrefixNewlineIndex(s: string, u: string)
    requires NewlineIndex(s) < |s|
    ensures NewlineIndex(s + u) == NewlineIndex(s)
  {
    var i := NewlineIndex(s);
    assert (s + u)[i] == '\n';
    assert (s + u)[..i] == s[..i];
  }

  /** The literal pattern `p` occurs somewhere in `s`. */
  predicate Contains(s: string, p: string)
    ensures Contains(s, p) ==> |p| <= |s|
    ensures p == [] ==> Contains(s, p)
  {
    assert p == [] ==> OccursAt(s, p, 0);
    exists i :: 0 <= i <= |s| && OccursAt(s, p, i)
  }

  predicate OccursAt(s: string, p: string, i: int) {
    0 <= i <= |s| - |p| && s[i..i + |p|] == p
  }

  lemma ContainsInLonger(s: string, p: string, u: string, v: string)
    requires Contains(s, p)
    ensures Contains(u + s + v, p)
  {
    var i :| 0 <= i <= |s| && OccursAt(s, p, i);
    assert (u + s + v)[|u| + i..|u| + i + |p|] == s[i..i + |p|];
    assert OccursAt(u + s + v, p, |u| + i);
  }

  lemma ContainsPrefix(s: string, p: string, q: string)
    requires Contains(s, q)
    requires |p| <= |q| && q[..|p|] == p
    ensures Contains(s, p)
  {
    var i :| 0 <= i <= |s| && OccursAt(s, q, i);
    assert s[i..i + |p|] == q[..|p|];
    assert OccursAt(s, p, i);
  }

  /** A pattern that does not end in a comma occurs in `s + ","` only if it occurs in `s`. */
  lemma ContainsWithComma(s: string, p: string)
    requires |p| > 0 && p[|p| - 1] != ','
    ensures Contains(s + ",", p) ==> Contains(s, p)
  {
    if Contains(s + ",", p) {
      var i :| 0 <= i <= |s + ","| && OccursAt(s + ",", p, i);
      assert s[i..i + |p|] == (s + ",")[i..i + |p|];
      assert OccursAt(s, p, i);
    }
  }

  const Digits := "0123456789"

  /** A natural number written in decimal, without leading zeros. */
  function NatToDecimal(n: nat): (s: string)
    ensures |s| > 0
    ensures forall k :: 0 <= k < |s| ==> s[k] in Digits
    ensures (s[0] == '0') <==> n == 0
  {
    if n < 10 then [Digits[n]] else NatToDecimal(n / 10) + [Digits[n % 10]]
  }

  /** An integer as a `%d` verb formats it: a minus sign before the digits of a negative value. */
  function IntToDecimal(n: int): (s: string)
    ensures |s| > 0
    ensures (s[0] == '-') <==> n < 0
    ensures s[|s| - 1] in Digits
  {
    if n < 0 then "-" + NatToDecimal(-n) else NatToDecimal(n)
  }

  /** Appending a digit to a positive number appends its character to the text. */
  lemma DecimalAppendDigit(n: nat, d: nat)
    requires n > 0 && d < 10
    ensures NatToDecimal(10 * n + d) == NatToDecimal(n) + [Digits[d]]
  {
    var m := 10 * n + d;
    assert m / 10 == n && m % 10 == d;
  }

  /** `parts` joined with `sep` between each pair. */
  function Join(parts: seq<string>, sep: string): string
  {
    if |parts| == 0 then [] else if |parts| == 1 then parts[0] else parts[0] + sep + Join(parts[1..], sep)
  }

  lemma {:induction false} JoinAppend(parts: seq<string>, p: string, sep: string)
    requires parts != []
    ensures Join(parts + [p], sep) == Join(parts, sep) + sep + p
  {
    if |parts| == 1 {
      assert (parts + [p])[1..] == [p];
    } else {
      assert (parts + [p])[1..] == parts[1..] + [p];
      JoinAppend(parts[1..], p, sep);
    }
  }

  /** Removes one trailing comma, as replacing the pattern ",$" with nothing does. */
  function TrimComma(line: string): (r: string)
    ensures |line| - 1 <= |r| <= |line|
    ensures r == line[..|r|]
    ensures |r| < |line| <==> |line| > 0 && line[|line| - 1] == ','
  {
    if |line| > 0 && line[|line| - 1] == ',' then line[..|line| - 1] else line
  }
}
