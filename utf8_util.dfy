/** The line-scanning helpers of OpenCC's `UTF8Util`, on text seen as a sequence of
    code points: stepping over one UTF-8 sequence is stepping over one `char`. */
module Utf8Util {

  /** The characters at which a dictionary line stops: NUL ends the buffer, LF and CR end
      the line. */
  predicate IsLineEndingOrFileEnding(c: char)
  {
    c == '\0' || c == '\n' || c == '\r'
  }

  /** Position `i` of `buff` is a line or buffer end; running off the end of the sequence
      counts as the end of the buffer. */
  predicate AtLineEnd(buff: seq<char>, i: nat)
  {
    i >= |buff| || IsLineEndingOrFileEnding(buff[i])
  }

  /** `FindNextInline`: from `from`, the first position holding `ch` or ending the line. */
  function FindNextInline(buff: seq<char>, from: nat, ch: char): (p: nat)
    requires from <= |buff|
    ensures from <= p <= |buff|
    ensures AtLineEnd(buff, p) || buff[p] == ch
    ensures forall k :: from <= k < p ==> buff[k] != ch && !IsLineEndingOrFileEnding(buff[k])
    decreases |buff| - from
  {
    if AtLineEnd(buff, from) || buff[from] == ch then from else FindNextInline(buff, from + 1, ch)
  }

  /** The position of the first line or buffer end of `buff`. */
  function LineEnd(buff: seq<char>): (n: nat)
    ensures n <= |buff| && AtLineEnd(buff, n)
    ensures forall k :: 0 <= k < n ==> !IsLineEndingOrFileEnding(buff[k])
  {
    if AtLineEnd(buff, 0) then 0 else 1 + LineEnd(buff[1..])
  }

  /** No line or buffer end anywhere in `s`. */
  predicate NoLineEnd(s: seq<char>)
  {
    forall k :: 0 <= k < |s| ==> !IsLineEndingOrFileEnding(s[k])
  }

  /** A line without line endings followed by a line or buffer end ends where it ends. */
  lemma {:induction false} LineEndOf(line: seq<char>, ending: seq<char>)
    requires NoLineEnd(line)
    requires AtLineEnd(ending, 0)
    ensures LineEnd(line + ending) == |line|
  {
    if line != [] {
      assert (line + ending)[1..] == line[1..] + ending;
      LineEndOf(line[1..], ending);
    } else {
      assert line + ending == ending;
    }
  }

  /** `std::string(buff)`: the characters of `buff` before its first NUL. */
  function CString(buff: seq<char>): seq<char>
  {
    if buff == [] || buff[0] == '\0' then [] else [buff[0]] + CString(buff[1..])
  }
}
