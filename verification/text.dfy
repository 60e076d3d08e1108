/**
 * The two pieces of Python text handling the splitter relies on:
 * `str.split(sep)` with an explicit one-character separator, and iterating
 * over a file opened in text mode, which yields the file line by line with
 * each line keeping its terminating '\n' (the last line may lack one).
 * Line endings are taken to be '\n' only.
 */
module Text {

  /** The inverse of `split`: the parts glued back together with `sep`. */
  function Join(parts: seq<string>, sep: char): string
    requires |parts| >= 1
  {
    if |parts| == 1 then parts[0] else parts[0] + [sep] + Join(parts[1..], sep)
  }

  /** No part contains the separator. */
  predicate SeparatorFree(parts: seq<string>, sep: char) {
    forall i :: 0 <= i < |parts| ==> sep !in parts[i]
  }

  /** Python's `s.split(sep)`: never empty, and empty parts are kept. */
  function Split(s: string, sep: char): (r: seq<string>)
    ensures |r| >= 1
    ensures SeparatorFree(r, sep)
    ensures Join(r, sep) == s
    decreases |s|
  {
    if s == [] then [""]
    else
      var rest := Split(s[1..], sep);
      if s[0] == sep then
        assert Join([""] + rest, sep) == [sep] + Join(rest, sep);
        assert [s[0]] + s[1..] == s;
        [""] + rest
      else
        JoinConsFirst(s[0], rest, sep);
        assert [s[0]] + s[1..] == s;
        [[s[0]] + rest[0]] + rest[1..]
  }

  /** Prepending a character to the first part prepends it to the join. */
  lemma JoinConsFirst(c: char, parts: seq<string>, sep: char)
    requires |parts| >= 1
    ensures Join([[c] + parts[0]] + parts[1..], sep) == [c] + Join(parts, sep)
  {
    var ps := [[c] + parts[0]] + parts[1..];
    assert ps[1..] == parts[1..];
  }

  /** Splitting undoes joining whenever no part holds the separator. */
  lemma {:induction false} SplitJoin(parts: seq<string>, sep: char)
    requires |parts| >= 1
    requires SeparatorFree(parts, sep)
    ensures Split(Join(parts, sep), sep) == parts
    decreases |parts|, |parts[0]|
  {
    if parts[0] == [] {
      if |parts| == 1 {
      } else {
        var s := Join(parts, sep);
        assert s == [sep] + Join(parts[1..], sep);
        assert s[1..] == Join(parts[1..], sep);
        SplitJoin(parts[1..], sep);
        assert [""] + parts[1..] == parts;
      }
    } else {
      var c := parts[0][0];
      var tail := [parts[0][1..]] + parts[1..];
      assert tail[1..] == parts[1..];
      assert SeparatorFree(tail, sep) by {
        forall i | 0 <= i < |tail| ensures sep !in tail[i] {
          if i == 0 {
            assert forall k | 0 <= k < |parts[0][1..]| :: parts[0][1..][k] == parts[0][k + 1];
          } else {
            assert tail[i] == parts[i];
          }
        }
      }
      SplitJoin(tail, sep);
      JoinConsFirst(c, tail, sep);
      assert [c] + parts[0][1..] == parts[0];
      assert [[c] + tail[0]] + tail[1..] == parts;
      var s := Join(parts, sep);
      assert s == [c] + Join(tail, sep);
      assert s[0] == c && c != sep;
      assert s[1..] == Join(tail, sep);
    }
  }

  /** All parts glued together in order: lines back into a text, clusters into one list of points. */
  function Concat<T>(parts: seq<seq<T>>): seq<T> {
    if parts == [] then [] else parts[0] + Concat(parts[1..])
  }

  /** One line as a file iterator yields it: non-empty, and a '\n' can only be its last character. */
  predicate IsLine(l: string) {
    |l| > 0 && forall k :: 0 <= k < |l| - 1 ==> l[k] != '\n'
  }

  /** A line that carries its terminating '\n'. */
  predicate IsTerminated(l: string) {
    |l| > 0 && l[|l| - 1] == '\n'
  }

  /** The shape of what a file iterator yields: every line well formed, all but the last terminated. */
  predicate LineShaped(lines: seq<string>) {
    && (forall i :: 0 <= i < |lines| ==> IsLine(lines[i]))
    && (forall i :: 0 <= i < |lines| - 1 ==> IsTerminated(lines[i]))
  }

  /** `for x in f`: the lines of a text-mode file, each keeping its '\n'. */
  function Lines(text: string): (r: seq<string>)
    ensures LineShaped(r)
    ensures Concat(r) == text
    decreases |text|
  {
    if text == [] then []
    else
      var rest := Lines(text[1..]);
      assert [text[0]] + text[1..] == text;
      if text[0] == '\n' || rest == [] then
        assert Concat([[text[0]]] + rest) == [text[0]] + Concat(rest);
        [[text[0]]] + rest
      else
        var first := [text[0]] + rest[0];
        assert ([first] + rest[1..])[1..] == rest[1..];
        assert Concat([first] + rest[1..]) == [text[0]] + Concat(rest);
        [first] + rest[1..]
  }

  /** Reading back a file written as well-shaped lines yields exactly those lines. */
  lemma {:induction false} LinesConcat(lines: seq<string>)
    requires LineShaped(lines)
    ensures Lines(Concat(lines)) == lines
    decreases |lines|, if lines == [] then 0 else |lines[0]|
  {
    if lines == [] {
    } else if |lines[0]| == 1 {
      var text := Concat(lines);
      assert text[0] == lines[0][0];
      assert text[1..] == Concat(lines[1..]);
      LinesConcat(lines[1..]);
      if lines[0][0] != '\n' {
        assert !IsTerminated(lines[0]);
      }
      assert lines[0] == [text[0]];
      assert [[text[0]]] + lines[1..] == lines;
    } else {
      var l := lines[0];
      var tail := [l[1..]] + lines[1..];
      DropFirstChar(lines);
      LinesConcat(tail);
      var text := Concat(lines);
      assert text[1..] == Concat(tail);
      assert [l[0]] + tail[0] == l;
      assert tail[1..] == lines[1..];
      assert [[l[0]] + tail[0]] + tail[1..] == lines;
    }
  }

  /** Moving the first character of a longer first line out of the line list keeps it line-shaped. */
  lemma DropFirstChar(lines: seq<string>)
    requires LineShaped(lines) && |lines| > 0 && |lines[0]| > 1
    ensures var tail := [lines[0][1..]] + lines[1..];
      && LineShaped(tail)
      && lines[0][0] != '\n'
      && Concat(lines) == [lines[0][0]] + Concat(tail)
  {
    var l := lines[0];
    var tail := [l[1..]] + lines[1..];
    LineTail(l, |lines| > 1);
    assert tail[1..] == lines[1..];
    TailShaped(lines, tail);
    ConcatDropFirst(lines);
  }

  /** The first character of the text is the first character of the first line. */
  lemma ConcatDropFirst(lines: seq<string>)
    requires |lines| > 0 && |lines[0]| > 0
    ensures Concat(lines) == [lines[0][0]] + Concat([lines[0][1..]] + lines[1..])
  {
    var l := lines[0];
    var tail := [l[1..]] + lines[1..];
    assert tail[0] == l[1..] && tail[1..] == lines[1..];
    FirstCharOut(l, Concat(lines[1..]));
  }

  /** Taking the first character off a string and putting it back in front of a longer text. */
  lemma FirstCharOut(l: string, rest: string)
    requires |l| > 0
    ensures l + rest == [l[0]] + (l[1..] + rest)
  {
    assert [l[0]] + l[1..] == l;
  }

  /** Replacing the first line by another line, terminated when needed, keeps the list line-shaped. */
  lemma TailShaped(lines: seq<string>, tail: seq<string>)
    requires LineShaped(lines) && |tail| == |lines| > 0 && tail[1..] == lines[1..]
    requires IsLine(tail[0]) && (|lines| > 1 ==> IsTerminated(tail[0]))
    ensures LineShaped(tail)
  {
    forall i | 0 < i < |tail| ensures tail[i] == lines[i] {
      assert tail[i] == tail[1..][i - 1];
    }
  }

  /** A line of two or more characters without its first one is still a line, and starts with no '\n'. */
  lemma LineTail(l: string, terminated: bool)
    requires IsLine(l) && |l| > 1 && (terminated ==> IsTerminated(l))
    ensures l[0] != '\n' && IsLine(l[1..]) && (terminated ==> IsTerminated(l[1..]))
  {
    forall k | 0 <= k < |l| - 2 ensures l[1..][k] != '\n' {
      assert l[1..][k] == l[k + 1];
    }
  }

  /** Reading a terminated line leaves the rest of the file to be read exactly as on its own. */
  lemma {:induction false} LinesAfterLine(h: string, rest: string)
    requires IsLine(h) && IsTerminated(h)
    ensures Lines(h + rest) == [h] + Lines(rest)
    decreases |h|
  {
    if |h| == 1 {
      assert h == ['\n'];
      assert (h + rest)[1..] == rest;
    } else {
      var h' := h[1..];
      LineTail(h, true);
      LinesAfterLine(h', rest);
      assert (h + rest)[1..] == h' + rest;
      assert [h[0]] + h' == h;
    }
  }
}
