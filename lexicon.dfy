/** Lexicon construction from a text blob: every `'\n'`-terminated line is parsed in order,
    numbered from 1, and the first failure aborts the whole blob. */
module Lexicon {
  import opened Wrappers
  import opened Text
  import opened Utf8Util
  import opened Opencc
  import opened KeyValueParser

  /** The `'\n'`-terminated lines of `text` from position `index` on, in order, each with
      its `'\n'`; the text after the last `'\n'` is not a line. */
  function LinesAt(text: string, index: nat): seq<string>
    requires index <= |text|
    decreases |text| - index
  {
    match Find(text, '\n', index)
    case None => []
    case Some(next) => [text[index..next + 1]] + LinesAt(text, next + 1)
  }

  /** The `'\n'`-terminated lines of the whole of `text`. */
  function Lines(text: string): seq<string>
  {
    LinesAt(text, 0)
  }

  /** The entries of `lines` numbered from `lineNum`, or the error of the first line that
      fails to parse. */
  function ParseLines(lines: seq<string>, lineNum: nat): Result<seq<DictEntry>, Exception>
  {
    if lines == [] then Ok([])
    else
      match ParseLine(lines[0], lineNum)
      case Err(e) => Err(e)
      case Ok(entry) =>
        match ParseLines(lines[1..], lineNum + 1)
        case Err(e) => Err(e)
        case Ok(entries) => Ok([entry] + entries)
  }

  /** The lexicon a text blob yields. */
  function LexiconOf(text: string): Result<seq<DictEntry>, Exception>
  {
    ParseLines(Lines(text), 1)
  }

  /** From `index` on there is one line per `'\n'`. */
  lemma {:induction false} LinesAtCount(text: string, index: nat)
    requires index <= |text|
    decreases |text| - index
    ensures |LinesAt(text, index)| == Count(text[index..], '\n')
  {
    match Find(text, '\n', index)
    case None =>
      var suffix := text[index..];
      assert forall k :: 0 <= k < |suffix| ==> suffix[k] == text[index + k];
      CountAbsent(suffix, '\n');
    case Some(next) =>
      LinesAtCount(text, next + 1);
      CountThroughNext(text, index, next);
  }

  /** The text from `index` on holds one more `'\n'` than the text after the next one. */
  lemma CountThroughNext(text: string, index: nat, next: nat)
    requires index <= |text| && Find(text, '\n', index) == Some(next)
    ensures Count(text[index..], '\n') == 1 + Count(text[next + 1..], '\n')
  {
    var line := text[index..next + 1];
    assert text[index..] == line + text[next + 1..];
    CountAppend(line, text[next + 1..], '\n');
    CountLine(line, '\n');
  }

  /** From `index` on, every line ends with its `'\n'` and holds no other. */
  lemma {:induction false} LinesAtShape(text: string, index: nat)
    requires index <= |text|
    decreases |text| - index
    ensures forall i :: 0 <= i < |LinesAt(text, index)| ==>
              |LinesAt(text, index)[i]| >= 1 && LinesAt(text, index)[i][|LinesAt(text, index)[i]| - 1] == '\n'
    ensures forall i, k :: 0 <= i < |LinesAt(text, index)| && 0 <= k < |LinesAt(text, index)[i]| - 1 ==>
              LinesAt(text, index)[i][k] != '\n'
  {
    match Find(text, '\n', index)
    case None =>
    case Some(next) =>
      var rest := LinesAt(text, next + 1);
      LinesAtShape(text, next + 1);
      var lines := LinesAt(text, index);
      assert lines == [text[index..next + 1]] + rest;
      assert forall i :: 1 <= i < |lines| ==> lines[i] == rest[i - 1];
  }

  /** `line` is one `'\n'`-terminated line: it ends with a `'\n'` and holds no other. */
  predicate OneLine(line: string)
  {
    |line| >= 1 && line[|line| - 1] == '\n' && forall k :: 0 <= k < |line| - 1 ==> line[k] != '\n'
  }

  /** The text has one line per `'\n'`; every line ends with its `'\n'` and holds no other. */
  lemma LinesShape(text: string)
    ensures |Lines(text)| == Count(text, '\n')
    ensures forall i :: 0 <= i < |Lines(text)| ==> OneLine(Lines(text)[i])
  {
    LinesAtCount(text, 0);
    LinesAtShape(text, 0);
    assert text[0..] == text;
  }

  /** From `index` on, the lines put back together are the text up to and including its
      last `'\n'`; what follows holds no `'\n'`. */
  lemma {:induction false} LinesAtCover(text: string, index: nat)
    requires index <= |text|
    decreases |text| - index
    ensures index + |Concat(LinesAt(text, index))| <= |text|
    ensures forall k :: 0 <= k < |Concat(LinesAt(text, index))| ==>
              Concat(LinesAt(text, index))[k] == text[index + k]
  {
    match Find(text, '\n', index)
    case None =>
    case Some(next) =>
      LinesAtCover(text, next + 1);
      var line := text[index..next + 1];
      var rest := Concat(LinesAt(text, next + 1));
      var lines := LinesAt(text, index);
      assert lines[0] == line && lines[1..] == LinesAt(text, next + 1);
      assert Concat(lines) == line + rest;
  }

  /** From `index` on, no `'\n'` follows the last line. */
  lemma {:induction false} LinesAtRest(text: string, index: nat)
    requires index <= |text|
    decreases |text| - index
    ensures forall k :: index + |Concat(LinesAt(text, index))| <= k < |text| ==> text[k] != '\n'
  {
    match Find(text, '\n', index)
    case None =>
    case Some(next) =>
      LinesAtRest(text, next + 1);
      var lines := LinesAt(text, index);
      assert lines[0] == text[index..next + 1] && lines[1..] == LinesAt(text, next + 1);
      assert |Concat(lines)| == next + 1 - index + |Concat(LinesAt(text, next + 1))|;
  }

  /** The lines put back together are the text up to and including its last `'\n'`; what
      follows holds no `'\n'`. */
  lemma LinesCover(text: string)
    ensures var covered := Concat(Lines(text));
            && covered <= text
            && forall k :: |covered| <= k < |text| ==> text[k] != '\n'
  {
    LinesAtCover(text, 0);
    LinesAtRest(text, 0);
    var covered := Concat(Lines(text));
    assert covered == text[..|covered|];
  }

  /** From any `index`, text after the last `'\n'` never changes the lines. */
  lemma {:induction false} LinesAtIgnoreTail(text: string, tail: string, index: nat)
    requires '\n' !in tail
    requires index <= |text|
    decreases |text| - index
    ensures LinesAt(text + tail, index) == LinesAt(text, index)
  {
    var all := text + tail;
    match Find(text, '\n', index)
    case None =>
      forall k | index <= k < |all|
        ensures all[k] != '\n'
      {
        if k >= |text| {
          assert all[k] == tail[k - |text|];
        }
      }
      FindAbsent(all, '\n', index);
    case Some(next) =>
      FindAt(all, '\n', index, next);
      assert all[index..next + 1] == text[index..next + 1];
      LinesAtIgnoreTail(text, tail, next + 1);
  }

  /** Text after the last `'\n'` never changes the lines. */
  lemma LinesIgnoreTail(text: string, tail: string)
    requires '\n' !in tail
    ensures Lines(text + tail) == Lines(text)
  {
    LinesAtIgnoreTail(text, tail, 0);
  }

  /** Parsing succeeds exactly when every line parses, under the line number of its
      position, and then yields one entry per line in order. */
  lemma {:induction false} ParseLinesOk(lines: seq<string>, lineNum: nat)
    ensures ParseLines(lines, lineNum).Ok? <==>
              forall k :: 0 <= k < |lines| ==> ParseLine(lines[k], lineNum + k).Ok?
    ensures ParseLines(lines, lineNum).Ok? ==>
              && |ParseLines(lines, lineNum).value| == |lines|
              && forall k :: 0 <= k < |lines| ==>
                   ParseLines(lines, lineNum).value[k] == ParseLine(lines[k], lineNum + k).value
  {
    if lines != [] {
      ParseLinesOk(lines[1..], lineNum + 1);
      forall k | 1 <= k < |lines|
        ensures ParseLine(lines[k], lineNum + k) == ParseLine(lines[1..][k - 1], lineNum + 1 + (k - 1))
      {
      }
    }
  }

  /** The first line that fails decides the outcome: construction stops with its error. */
  lemma {:induction false} ParseLinesFirstError(lines: seq<string>, lineNum: nat, k: nat)
    requires k < |lines|
    requires ParseLine(lines[k], lineNum + k).Err?
    requires forall j :: 0 <= j < k ==> ParseLine(lines[j], lineNum + j).Ok?
    ensures ParseLines(lines, lineNum) == Err(ParseLine(lines[k], lineNum + k).error)
  {
    if k > 0 {
      forall j | 0 <= j < k - 1
        ensures ParseLine(lines[1..][j], lineNum + 1 + j).Ok?
      {
        assert ParseLine(lines[j + 1], lineNum + (j + 1)).Ok?;
      }
      assert lines[1..][k - 1] == lines[k];
      ParseLinesFirstError(lines[1..], lineNum + 1, k - 1);
    }
  }

  /** A lexicon that builds has one entry per `'\n'` of its text, each the parse of the
      matching line under its 1-based number. */
  lemma LexiconEntries(text: string)
    requires LexiconOf(text).Ok?
    ensures |LexiconOf(text).value| == |Lines(text)| == Count(text, '\n')
    ensures forall k :: 0 <= k < |Lines(text)| ==>
              && ParseLine(Lines(text)[k], k + 1).Ok?
              && LexiconOf(text).value[k] == ParseLine(Lines(text)[k], k + 1).value
  {
    LinesShape(text);
    ParseLinesOk(Lines(text), 1);
  }

  /** Text after the last `'\n'` never reaches the parser. */
  lemma LexiconIgnoresTail(text: string, tail: string)
    requires '\n' !in tail
    ensures LexiconOf(text + tail) == LexiconOf(text)
  {
    LinesIgnoreTail(text, tail);
  }

  /** Two lines written one after the other are read back as exactly those two lines. */
  lemma TwoLines(first: string, second: string)
    requires OneLine(first) && OneLine(second)
    ensures Lines(first + second) == [first, second]
  {
    var text := first + second;
    var m := |first|;
    var n := |text|;
    FindAt(text, '\n', 0, m - 1);
    FindAt(text, '\n', m, n - 1);
    FindAbsent(text, '\n', n);
    assert LinesAt(text, n) == [];
    assert text[m..n] == second;
    assert LinesAt(text, m) == [second];
    assert text[0..m] == first;
  }

  /** A good first line followed by a failing second line aborts the blob with the second
      line's error, raised under line number 2, whatever unterminated text follows. */
  lemma SecondLineAborts(good: string, bad: string, tail: string)
    requires OneLine(good) && OneLine(bad) && '\n' !in tail
    requires ParseLine(good, 1).Ok? && ParseLine(bad, 2).Err?
    ensures LexiconOf(good + bad + tail) == Err(ParseLine(bad, 2).error)
  {
    LinesIgnoreTail(good + bad, tail);
    TwoLines(good, bad);
    ParseLinesFirstError(Lines(good + bad + tail), 1, 1);
  }

  /** A blank line anywhere in the blob, one that starts with its line end (`"\n"`, or
      `"\r\n"`), has no tab, so the whole blob fails. */
  lemma BlankLineAborts(text: string, k: nat)
    requires k < |Lines(text)| && AtLineEnd(Lines(text)[k], 0)
    ensures LexiconOf(text).Err?
  {
    ParseLinesOk(Lines(text), 1);
    assert FindNextInline(Lines(text)[k], 0, '\t') == 0;
  }

  /** Lines concatenated in order. */
  function Concat(lines: seq<string>): string
  {
    if lines == [] then [] else lines[0] + Concat(lines[1..])
  }

  /** A line whose only `c` is its last character holds exactly one `c`. */
  lemma CountLine(line: seq<char>, c: char)
    requires |line| >= 1 && line[|line| - 1] == c
    requires forall k :: 0 <= k < |line| - 1 ==> line[k] != c
    ensures Count(line, c) == 1
  {
    var n := |line| - 1;
    assert line == line[..n] + [c];
    assert c !in line[..n];
    CountAbsent(line[..n], c);
    CountAppend(line[..n], [c], c);
  }
}
