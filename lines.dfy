/**
 * Python's str.splitlines() and str.join with a newline: the report splits the
 * snippet and the typed text into lines, and joins the diff lines back into
 * one text for display.
 */
module Lines {

  /** The line boundaries str.splitlines() recognises. */
  predicate IsLineBreak(c: char)
  {
    || c == '\n' || c == '\r' || c == '\U{000B}' || c == '\U{000C}'
    || c == '\U{001C}' || c == '\U{001D}' || c == '\U{001E}'
    || c == '\U{0085}' || c == '\U{2028}' || c == '\U{2029}'
  }

  /** s holds no line boundary. */
  predicate IsLine(s: string)
  {
    forall k | 0 <= k < |s| :: !IsLineBreak(s[k])
  }

  /** The index of the first line boundary in s[i..], or |s| if there is none. */
  function LineEnd(s: string, i: nat): (e: nat)
    requires i <= |s|
    ensures i <= e <= |s|
    ensures IsLine(s[i..e])
    ensures e < |s| ==> IsLineBreak(s[e])
    decreases |s| - i
  {
    if i == |s| || IsLineBreak(s[i]) then
      i
    else
      var e := LineEnd(s, i + 1);
      assert s[i..e] == [s[i]] + s[i + 1..e];
      e
  }

  /** The length of the boundary at s[e]: "\r\n" counts as one boundary of two characters. */
  function BreakWidth(s: string, e: nat): nat
    requires e <= |s|
  {
    if e == |s| then 0
    else if s[e] == '\r' && e + 1 < |s| && s[e + 1] == '\n' then 2
    else 1
  }

  /**
   * str.splitlines(): the lines of s without their boundaries.  A boundary at
   * the very end does not open another line, and "" has no lines.
   */
  function SplitLines(s: string): (lines: seq<string>)
    ensures forall k | 0 <= k < |lines| :: IsLine(lines[k])
    decreases |s|
  {
    if s == [] then
      []
    else
      var e := LineEnd(s, 0);
      [s[..e]] + SplitLines(s[e + BreakWidth(s, e)..])
  }

  /** "\n".join(lines). */
  function Join(lines: seq<string>): string
  {
    if lines == [] then ""
    else if |lines| == 1 then lines[0]
    else lines[0] + "\n" + Join(lines[1..])
  }

  lemma {:induction false} LineEndOfLine(line: string, rest: string, i: nat)
    requires IsLine(line) && i <= |line|
    requires rest != [] ==> IsLineBreak(rest[0])
    ensures LineEnd(line + rest, i) == |line|
    decreases |line| - i
  {
    if i < |line| {
      assert (line + rest)[i] == line[i];
      LineEndOfLine(line, rest, i + 1);
    } else if rest != [] {
      assert (line + rest)[i] == rest[0];
    }
  }

  /**
   * Splitting lines joined with newlines gives them back, provided none holds
   * a boundary and the last one is not empty (an empty last line would leave
   * a trailing newline, which opens no line).
   */
  lemma {:induction false} SplitJoin(lines: seq<string>)
    requires forall k | 0 <= k < |lines| :: IsLine(lines[k])
    requires lines != [] ==> lines[|lines| - 1] != []
    ensures SplitLines(Join(lines)) == lines
  {
    if |lines| == 1 {
      var s := lines[0];
      LineEndOfLine(s, "", 0);
      assert s + "" == s;
      assert s[|s|..] == [];
    } else if |lines| > 1 {
      var rest := Join(lines[1..]);
      var s := lines[0] + ("\n" + rest);
      assert Join(lines) == s;
      LineEndOfLine(lines[0], "\n" + rest, 0);
      assert s[..|lines[0]|] == lines[0];
      assert s[|lines[0]| + 1..] == rest;
      SplitJoin(lines[1..]);
    }
  }
}
