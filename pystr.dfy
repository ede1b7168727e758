/** The Python 2 `str` operations the command dispatcher relies on:
    `splitlines()`, `split(sep)`, slicing with negative bounds and
    `replace(c, "")`. A Python 2 `str` is a byte string; here it is a
    `string` whose characters stand for those bytes. */
module PyStr {

  // ---------------------------------------------------------------------
  // str.splitlines()
  // ---------------------------------------------------------------------

  /** On a byte string, `splitlines` breaks lines at "\n", "\r" and "\r\n" only. */
  predicate IsLineBreak(c: char) {
    c == '\n' || c == '\r'
  }

  predicate NoLineBreak(s: string) {
    forall i :: 0 <= i < |s| ==> !IsLineBreak(s[i])
  }

  /** Index of the first line break in `s`, or `|s|` when there is none. */
  function LineEnd(s: string): (n: nat)
    ensures n <= |s|
    ensures forall i :: 0 <= i < n ==> !IsLineBreak(s[i])
    ensures n < |s| ==> IsLineBreak(s[n])
  {
    if s == [] || IsLineBreak(s[0]) then 0 else 1 + LineEnd(s[1..])
  }

  /** Length of the line terminator that starts at `n`: "\r\n" counts as one terminator. */
  function TerminatorLength(s: string, n: nat): (t: nat)
    requires n <= |s|
    ensures n + t <= |s|
    ensures n < |s| ==> 1 <= t
  {
    if n == |s| then 0
    else if s[n] == '\r' && n + 1 < |s| && s[n + 1] == '\n' then 2
    else 1
  }

  /** `s.splitlines()`: the lines of `s` without their terminators. An empty
      string has no lines, and a final terminator does not open an empty line. */
  function SplitLines(s: string): (lines: seq<string>)
    ensures |lines| == 0 <==> |s| == 0
    decreases |s|
  {
    if s == [] then []
    else
      var n := LineEnd(s);
      [s[..n]] + SplitLines(s[n + TerminatorLength(s, n)..])
  }

  /** No line holds a line break. */
  lemma {:induction false} SplitLinesNoBreaks(s: string)
    ensures forall i :: 0 <= i < |SplitLines(s)| ==> NoLineBreak(SplitLines(s)[i])
    decreases |s|
  {
    if s != [] {
      var n := LineEnd(s);
      var t := TerminatorLength(s, n);
      SplitLinesFirstLine(s, n, t);
      SplitLinesNoBreaks(s[n + t..]);
    }
  }

  /** Concatenation regroups freely. */
  lemma AppendAssociates<T>(x: seq<T>, y: seq<T>, z: seq<T>)
    ensures x + (y + z) == (x + y) + z
  {
  }

  /** Lines written out each followed by "\n": the inverse of `SplitLines`. */
  function JoinLines(lines: seq<string>): string {
    if lines == [] then [] else lines[0] + "\n" + JoinLines(lines[1..])
  }

  /** `s` with every line-break character dropped. */
  function DropLineBreaks(s: string): (r: string)
    ensures NoLineBreak(r)
    ensures |r| <= |s|
  {
    if s == [] then []
    else if IsLineBreak(s[0]) then DropLineBreaks(s[1..])
    else [s[0]] + DropLineBreaks(s[1..])
  }

  /** The concatenation of a sequence of strings. */
  function Concat(ss: seq<string>): string {
    if ss == [] then [] else ss[0] + Concat(ss[1..])
  }

  lemma {:induction false} LineEndAt(a: string, b: string)
    requires NoLineBreak(a)
    requires b == [] || IsLineBreak(b[0])
    ensures LineEnd(a + b) == |a|
  {
    if a != [] {
      assert (a + b)[1..] == a[1..] + b;
      LineEndAt(a[1..], b);
    }
  }

  /** A line without breaks followed by "\n" is split off as the first line. */
  lemma SplitLinesNewline(line: string, rest: string)
    requires NoLineBreak(line)
    ensures SplitLines(line + "\n" + rest) == [line] + SplitLines(rest)
  {
    var s := line + "\n" + rest;
    var n := |line|;
    assert s == line + ("\n" + rest);
    LineEndAt(line, "\n" + rest);
    assert s[n] == '\n';
    assert s[..n] == line;
    assert s[n + 1..] == rest;
    SplitLinesFirstLine(s, n, 1);
  }

  /** A line without breaks is split off at any of the three terminators:
      "\n", "\r\n" taken as one, and a lone "\r" not followed by "\n". */
  lemma SplitLinesTerminator(line: string, term: string, rest: string)
    requires NoLineBreak(line)
    requires term == "\n" || term == "\r\n" || (term == "\r" && (rest == [] || rest[0] != '\n'))
    ensures SplitLines(line + term + rest) == [line] + SplitLines(rest)
  {
    var n := |line|;
    var tail := term + rest;
    var s := line + tail;
    AppendAssociates(line, term, rest);
    LineEndAt(line, tail);
    assert s[..n] == line;
    assert s[n + |term|..] == rest;
    assert TerminatorLength(s, n) == |term| by {
      assert s[n] == term[0];
      if term == "\r\n" { assert s[n + 1] == '\n'; }
      if term == "\r" && rest != [] { assert s[n + 1] == rest[0]; }
    }
    SplitLinesFirstLine(s, n, |term|);
  }

  /** Splitting lines undoes joining them, as long as no line holds a break. */
  lemma {:induction false} SplitLinesJoinLines(lines: seq<string>)
    requires forall i :: 0 <= i < |lines| ==> NoLineBreak(lines[i])
    ensures SplitLines(JoinLines(lines)) == lines
  {
    if lines != [] {
      var rest := lines[1..];
      assert JoinLines(lines) == lines[0] + "\n" + JoinLines(rest);
      SplitLinesNewline(lines[0], JoinLines(rest));
      SplitLinesJoinLines(rest);
      assert lines == [lines[0]] + rest;
    }
  }

  lemma NoLineBreakAppend(a: string, b: string)
    requires NoLineBreak(a) && NoLineBreak(b)
    ensures NoLineBreak(a + b)
  {
    forall i | 0 <= i < |a + b| ensures !IsLineBreak((a + b)[i]) {
      if i >= |a| {
        assert (a + b)[i] == b[i - |a|];
      }
    }
  }

  /** Two lines, each written with a trailing "\n", split back into those two lines. */
  lemma SplitTwoLines(a: string, b: string)
    requires NoLineBreak(a) && NoLineBreak(b)
    ensures SplitLines(a + "\n" + b + "\n") == [a, b]
  {
    assert a + "\n" + b + "\n" == a + "\n" + (b + "\n");
    SplitLinesNewline(a, b + "\n");
    assert b + "\n" == b + "\n" + [];
    SplitLinesNewline(b, []);
  }

  /** A string without breaks is a single line (when it is not empty). */
  lemma SplitLinesOneLine(s: string)
    requires s != [] && NoLineBreak(s)
    ensures SplitLines(s) == [s]
  {
    LineEndAt(s, []);
    assert s + [] == s;
  }

  lemma {:induction false} DropLineBreaksAppend(a: string, b: string)
    ensures DropLineBreaks(a + b) == DropLineBreaks(a) + DropLineBreaks(b)
  {
    if a == [] {
      assert a + b == b;
    } else {
      assert (a + b)[0] == a[0];
      assert (a + b)[1..] == a[1..] + b;
      DropLineBreaksAppend(a[1..], b);
    }
  }

  lemma {:induction false} DropLineBreaksNone(s: string)
    requires NoLineBreak(s)
    ensures DropLineBreaks(s) == s
  {
    if s != [] {
      DropLineBreaksNone(s[1..]);
    }
  }

  /** The terminator found after a line consists of line breaks only. */
  lemma TerminatorDropped(s: string, n: nat, t: nat)
    requires s != [] && n == LineEnd(s) && t == TerminatorLength(s, n)
    ensures DropLineBreaks(s[n..n + t]) == []
  {
    var u := s[n..n + t];
    if t == 1 {
      assert u[0] == s[n] && u[1..] == [];
    } else if t == 2 {
      assert u[0] == '\r' && u[1] == '\n' && u[1..][1..] == [];
    }
  }

  /** A line, then a run of breaks, then the rest: only the line and the rest's text survive. */
  lemma DropLineBreaksLine(line: string, term: string, rest: string)
    requires NoLineBreak(line) && DropLineBreaks(term) == []
    ensures DropLineBreaks(line + term + rest) == line + DropLineBreaks(rest)
  {
    DropLineBreaksAppend(line + term, rest);
    DropLineBreaksAppend(line, term);
    DropLineBreaksNone(line);
  }

  /** Dropping the breaks of `s` keeps its first line and continues after its terminator. */
  lemma DropLineBreaksFirstLine(s: string, n: nat, t: nat)
    requires s != [] && n == LineEnd(s) && t == TerminatorLength(s, n)
    ensures DropLineBreaks(s) == s[..n] + DropLineBreaks(s[n + t..])
  {
    assert s == s[..n] + s[n..n + t] + s[n + t..];
    TerminatorDropped(s, n, t);
    DropLineBreaksLine(s[..n], s[n..n + t], s[n + t..]);
  }

  lemma ConcatFirstLine(s: string, n: nat, t: nat)
    requires s != [] && n == LineEnd(s) && t == TerminatorLength(s, n)
    ensures Concat(SplitLines(s)) == s[..n] + Concat(SplitLines(s[n + t..]))
  {
    SplitLinesFirstLine(s, n, t);
    ConcatCons(s[..n], SplitLines(s[n + t..]));
  }

  lemma SplitLinesFirstLine(s: string, n: nat, t: nat)
    requires s != [] && n == LineEnd(s) && t == TerminatorLength(s, n)
    ensures SplitLines(s) == [s[..n]] + SplitLines(s[n + t..])
  {
  }

  lemma ConcatCons(x: string, xs: seq<string>)
    ensures Concat([x] + xs) == x + Concat(xs)
  {
    assert ([x] + xs)[0] == x && ([x] + xs)[1..] == xs;
  }

  /** No character of the input is lost or reordered by `SplitLines`, except
      the line breaks themselves. */
  lemma {:induction false} SplitLinesContents(s: string)
    ensures Concat(SplitLines(s)) == DropLineBreaks(s)
    decreases |s|
  {
    if s != [] {
      var n := LineEnd(s);
      var t := TerminatorLength(s, n);
      DropLineBreaksFirstLine(s, n, t);
      ConcatFirstLine(s, n, t);
      SplitLinesContents(s[n + t..]);
    }
  }

  // ---------------------------------------------------------------------
  // str.split(sep) for a one-character separator
  // ---------------------------------------------------------------------

  /** Index of the first `c` in `s`, or `|s|` when there is none. */
  function IndexOf(s: string, c: char): (n: nat)
    ensures n <= |s|
    ensures forall i :: 0 <= i < n ==> s[i] != c
    ensures n < |s| ==> s[n] == c
  {
    if s == [] || s[0] == c then 0 else 1 + IndexOf(s[1..], c)
  }

  /** `s.split(sep)`: always at least one field, none holding `sep`;
      the empty string gives `[""]`. */
  function Split(s: string, sep: char): (fields: seq<string>)
    ensures |fields| >= 1
    decreases |s|
  {
    var n := IndexOf(s, sep);
    if n == |s| then [s] else [s[..n]] + Split(s[n + 1..], sep)
  }

  /** A separator at `n` splits off the field before it. */
  lemma SplitAt(s: string, sep: char, n: nat)
    requires n == IndexOf(s, sep) && n < |s|
    ensures Split(s, sep) == [s[..n]] + Split(s[n + 1..], sep)
  {
  }

  /** No field holds the separator. */
  lemma {:induction false} SplitNoSeparator(s: string, sep: char)
    ensures forall i :: 0 <= i < |Split(s, sep)| ==> sep !in Split(s, sep)[i]
    decreases |s|
  {
    var n := IndexOf(s, sep);
    if n < |s| {
      var rest := Split(s[n + 1..], sep);
      SplitNoSeparator(s[n + 1..], sep);
      SplitAt(s, sep, n);
      assert sep !in s[..n];
      forall i | 0 <= i < |Split(s, sep)| ensures sep !in Split(s, sep)[i] {
        if i > 0 {
          assert Split(s, sep)[i] == rest[i - 1];
        }
      }
    } else {
      assert sep !in s;
    }
  }

  /** `sep.join(fields)`. */
  function Join(fields: seq<string>, sep: char): string
    requires |fields| >= 1
  {
    if |fields| == 1 then fields[0] else fields[0] + [sep] + Join(fields[1..], sep)
  }

  /** Joining the fields of a split gives back the original string. */
  lemma {:induction false} JoinSplit(s: string, sep: char)
    ensures Join(Split(s, sep), sep) == s
    decreases |s|
  {
    var n := IndexOf(s, sep);
    var fields := Split(s, sep);
    if n < |s| {
      var rest := Split(s[n + 1..], sep);
      assert fields == [s[..n]] + rest;
      assert fields[0] == s[..n] && fields[1..] == rest;
      assert Join(fields, sep) == s[..n] + [sep] + Join(rest, sep);
      JoinSplit(s[n + 1..], sep);
      assert s == s[..n] + [sep] + s[n + 1..];
    } else {
      assert fields == [s];
    }
  }

  lemma {:induction false} IndexOfAt(a: string, b: string, c: char)
    requires c !in a
    requires b == [] || b[0] == c
    ensures IndexOf(a + b, c) == |a|
  {
    if a != [] {
      assert (a + b)[1..] == a[1..] + b;
      IndexOfAt(a[1..], b, c);
    }
  }

  /** A field without the separator, followed by the separator, is split off first. */
  lemma SplitSeparator(field: string, rest: string, sep: char)
    requires sep !in field
    ensures Split(field + [sep] + rest, sep) == [field] + Split(rest, sep)
  {
    var s := field + [sep] + rest;
    var n := |field|;
    assert s == field + ([sep] + rest);
    IndexOfAt(field, [sep] + rest, sep);
    assert s[..n] == field;
    assert s[n + 1..] == rest;
    SplitAt(s, sep, n);
  }

  /** Splitting undoes joining, as long as no field holds the separator. */
  lemma {:induction false} SplitJoin(fields: seq<string>, sep: char)
    requires |fields| >= 1
    requires forall f :: f in fields ==> sep !in f
    ensures Split(Join(fields, sep), sep) == fields
  {
    if |fields| == 1 {
      IndexOfAt(fields[0], [], sep);
      assert fields[0] + [] == fields[0];
    } else {
      var rest := fields[1..];
      assert Join(fields, sep) == fields[0] + [sep] + Join(rest, sep);
      SplitSeparator(fields[0], Join(rest, sep), sep);
      assert forall f :: f in rest ==> f in fields;
      SplitJoin(rest, sep);
      assert fields == [fields[0]] + rest;
    }
  }

  lemma JoinTwo(a: string, b: string, sep: char)
    ensures Join([a, b], sep) == a + [sep] + b
  {
    assert [a, b][1..] == [b];
  }

  lemma JoinThree(a: string, b: string, c: string, sep: char)
    ensures Join([a, b, c], sep) == a + [sep] + b + [sep] + c
  {
    assert [a, b, c][1..] == [b, c];
    JoinTwo(b, c, sep);
  }

  // ---------------------------------------------------------------------
  // Slicing s[start:stop] and s.replace(c, "")
  // ---------------------------------------------------------------------

  /** A Python slice bound: a negative bound counts from the end, and the
      result is clamped into `0..len`. */
  function SliceBound(b: int, len: nat): (r: nat)
    ensures r <= len
  {
    var k := if b < 0 then b + len else b;
    if k < 0 then 0 else if k > len then len else k
  }

  /** `s[start:stop]`: never fails, empty when the bounds cross. */
  function Slice(s: string, start: int, stop: int): (r: string)
    ensures |r| <= |s|
  {
    var i := SliceBound(start, |s|);
    var j := SliceBound(stop, |s|);
    if i < j then s[i..j] else []
  }

  /** `s[1:-1]` drops the first and the last character, and is empty for
      strings shorter than two. */
  lemma DropEnds(s: string)
    ensures |s| >= 2 ==> Slice(s, 1, -1) == s[1..|s| - 1]
    ensures |s| < 2 ==> Slice(s, 1, -1) == []
  {
  }

  /** `s.replace(c, "")` for a one-character `c`. */
  function RemoveChar(s: string, c: char): (r: string)
    ensures |r| <= |s|
  {
    if s == [] then []
    else if s[0] == c then RemoveChar(s[1..], c)
    else [s[0]] + RemoveChar(s[1..], c)
  }

  /** No `c` is left, and every character kept comes from `s`. */
  lemma {:induction false} RemoveCharRemoves(s: string, c: char)
    ensures c !in RemoveChar(s, c)
    ensures forall x :: x in RemoveChar(s, c) ==> x in s
  {
    if s != [] {
      RemoveCharRemoves(s[1..], c);
      assert forall x :: x in s[1..] ==> x in s;
    }
  }

  /** Removing `c` changes nothing exactly when `c` does not occur. */
  lemma {:induction false} RemoveCharIdentity(s: string, c: char)
    ensures RemoveChar(s, c) == s <==> c !in s
  {
    if s != [] {
      RemoveCharIdentity(s[1..], c);
      if s[0] == c {
        assert c in s;
      } else {
        assert s == [s[0]] + s[1..];
      }
    }
  }

  /** Removal works piecewise on a concatenation. */
  lemma {:induction false} RemoveCharAppend(a: string, b: string, c: char)
    ensures RemoveChar(a + b, c) == RemoveChar(a, c) + RemoveChar(b, c)
  {
    if a == [] {
      assert a + b == b;
    } else {
      assert (a + b)[0] == a[0];
      assert (a + b)[1..] == a[1..] + b;
      RemoveCharAppend(a[1..], b, c);
    }
  }

  // ---------------------------------------------------------------------
  // The print statement: print a, b, ...
  // ---------------------------------------------------------------------

  /** C's `isspace` in the default locale. */
  predicate IsCSpace(c: char) {
    c == ' ' || c == '\t' || c == '\n' || c == '\U{000B}' || c == '\U{000C}' || c == '\r'
  }

  /** The soft-space rule: after writing a string item, `print` puts a
      space before the next item unless the string ends in a whitespace
      character other than ' ' (tab, vertical tab, form feed, or a line
      break). An empty item does set it. */
  predicate SetsSoftSpace(item: string) {
    item == [] || !IsCSpace(item[|item| - 1]) || item[|item| - 1] == ' '
  }

  /** The items of one `print` statement written out, `softSpace` telling
      whether a space is pending before the first of them. */
  function PrintItems(items: seq<string>, softSpace: bool): string {
    if items == [] then []
    else (if softSpace then " " else "") + items[0] + PrintItems(items[1..], SetsSoftSpace(items[0]))
  }

  /** The line written by `print a, b, ...`, without its final "\n". No
      space is pending at its start, because the previous `print` ended its
      line. */
  function PrintLine(items: seq<string>): (line: string)
    ensures items == [] ==> line == []
    ensures items != [] ==> |line| >= |items[0]| && line[..|items[0]|] == items[0]
  {
    PrintItems(items, false)
  }

  /** When every item but the last sets the soft space, the items are
      printed joined by single spaces. */
  lemma {:induction false} PrintItemsJoin(items: seq<string>, softSpace: bool)
    requires |items| >= 1
    requires forall i :: 0 <= i < |items| - 1 ==> SetsSoftSpace(items[i])
    ensures PrintItems(items, softSpace) == (if softSpace then " " else "") + Join(items, ' ')
  {
    if |items| == 1 {
      assert items[1..] == [];
    } else {
      var rest := items[1..];
      assert forall i :: 0 <= i < |rest| - 1 ==> SetsSoftSpace(rest[i]) by {
        forall i | 0 <= i < |rest| - 1 ensures SetsSoftSpace(rest[i]) {
          assert rest[i] == items[i + 1];
        }
      }
      PrintItemsJoin(rest, true);
      assert SetsSoftSpace(items[0]);
    }
  }

  lemma PrintLineJoin(items: seq<string>)
    requires |items| >= 1
    requires forall i :: 0 <= i < |items| - 1 ==> SetsSoftSpace(items[i])
    ensures PrintLine(items) == Join(items, ' ')
  {
    PrintItemsJoin(items, false);
  }

  /** A four-item print whose first and third items set the soft space:
      the second item's ending decides the gap after it. */
  lemma PrintLineFour(a: string, b: string, c: string, d: string)
    requires SetsSoftSpace(a) && SetsSoftSpace(c)
    ensures PrintLine([a, b, c, d])
      == a + " " + b + (if SetsSoftSpace(b) then " " else "") + c + " " + d
  {
    var items := [a, b, c, d];
    assert items[1..] == [b, c, d] && items[1..][1..] == [c, d];
    assert items[1..][1..][1..] == [d] && [d][1..] == [];
    var gap := if SetsSoftSpace(b) then " " else "";
    var s4 := " " + d;
    var s3 := gap + c + s4;
    var s2 := " " + b + s3;
    assert PrintItems([d], true) == s4;
    assert PrintItems([c, d], SetsSoftSpace(b)) == s3;
    assert PrintItems([b, c, d], true) == s2;
    assert PrintItems(items, false) == a + s2;
    // Regroup `a + " " + b + gap + c + " " + d` into `a + s2`.
    var x := a + " " + b + gap;
    AppendAssociates(x + c, " ", d);
    AppendAssociates(x, c, s4);
    AppendAssociates(gap, c, s4);
    AppendAssociates(a + " " + b, gap, c + s4);
    AppendAssociates(a + " ", b, s3);
    AppendAssociates(a, " ", b + s3);
    AppendAssociates(" ", b, s3);
  }

  /** An item ending in whitespace other than ' ' is followed directly by
      the next item, with no space, wherever it stands in the statement. */
  lemma PrintItemsNoSpaceAfter(a: string, rest: seq<string>, softSpace: bool)
    requires !SetsSoftSpace(a)
    ensures PrintItems([a] + rest, softSpace) == (if softSpace then " " else "") + a + PrintItems(rest, false)
  {
    assert ([a] + rest)[0] == a && ([a] + rest)[1..] == rest;
  }
}
