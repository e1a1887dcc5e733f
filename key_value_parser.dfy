/** `ParseKeyValues`: one line of the text dictionary format `KEY<TAB>V1( V2)*`. */
module KeyValueParser {
  import opened Wrappers
  import opened Text
  import opened Utf8Util
  import opened Opencc

  /** The exception for a line with no tab before its end; the message carries the buffer
      as a C string. */
  function TabularNotFound(buff: seq<char>, lineNum: nat): Exception
  {
    InvalidTextDictionary("Tabular not found " + CString(buff), lineNum)
  }

  /** One value gives a single-value entry, more give a multi-value entry. */
  function NewEntry(key: string, values: seq<string>): DictEntry
    requires |values| >= 1
  {
    if |values| == 1 then SingleValue(key, values[0]) else MultiValue(key, values)
  }

  /** What parsing `buff` as line `lineNum` yields: the key is everything before the first
      tab, the values are the space-separated fields after it, and both stop at the first
      line or buffer end. */
  function ParseLine(buff: seq<char>, lineNum: nat): Result<DictEntry, Exception>
  {
    var tab := FindNextInline(buff, 0, '\t');
    if AtLineEnd(buff, tab) then Err(TabularNotFound(buff, lineNum))
    else
      assert tab < LineEnd(buff);
      Ok(NewEntry(buff[..tab], Split(buff[tab + 1..LineEnd(buff)], ' ')))
  }

  /** The dictionary line that writes `e` out. */
  function FormatLine(e: DictEntry): string
  {
    e.key + ['\t'] + Join(e.Values(), ' ')
  }

  /** The entries the format can express: a key without tabs, values without spaces, no
      line end anywhere in the line, and at least two values in a multi-value entry. */
  predicate WellFormedEntry(e: DictEntry)
  {
    && '\t' !in e.key
    && (forall i :: 0 <= i < |e.Values()| ==> ' ' !in e.Values()[i])
    && (e.MultiValue? ==> |e.values| >= 2)
    && NoLineEnd(FormatLine(e))
  }

  /** A line is rejected exactly when no tab comes before its first line or buffer end, and
      the rejection carries the line number it was given. */
  lemma ParseRejects(buff: seq<char>, lineNum: nat)
    ensures ParseLine(buff, lineNum).Err? <==>
              forall k :: 0 <= k < LineEnd(buff) ==> buff[k] != '\t'
    ensures ParseLine(buff, lineNum).Err? ==>
              ParseLine(buff, lineNum).error == InvalidTextDictionary("Tabular not found " + CString(buff), lineNum)
  {
    var tab := FindNextInline(buff, 0, '\t');
    if !AtLineEnd(buff, tab) {
      assert tab < LineEnd(buff) && buff[tab] == '\t';
    }
  }

  /** An accepted line is the formatting of its entry: the key is exactly the text before
      the first tab (possibly empty), and the values rejoined with spaces are exactly the
      text between that tab and the line end. */
  lemma FormatParse(buff: seq<char>, lineNum: nat)
    requires ParseLine(buff, lineNum).Ok?
    ensures FormatLine(ParseLine(buff, lineNum).value) == buff[..LineEnd(buff)]
    ensures WellFormedEntry(ParseLine(buff, lineNum).value)
  {
    var tab := FindNextInline(buff, 0, '\t');
    var end := LineEnd(buff);
    assert tab < end;
    var rest := buff[tab + 1..end];
    var values := Split(rest, ' ');
    var e := ParseLine(buff, lineNum).value;
    assert e == NewEntry(buff[..tab], values);
    assert e.Values() == values;
    JoinSplit(rest, ' ');
    SplitFieldsFree(rest, ' ');
    assert buff[..end] == buff[..tab] + ['\t'] + rest;
    assert FormatLine(e) == buff[..end];
  }

  /** Writing a well-formed entry out and parsing it back, with any line ending or none
      after it, gives the entry back. */
  lemma ParseFormat(e: DictEntry, ending: seq<char>, lineNum: nat)
    requires WellFormedEntry(e)
    requires AtLineEnd(ending, 0)
    ensures ParseLine(FormatLine(e) + ending, lineNum) == Ok(e)
  {
    var line := FormatLine(e);
    var buff := line + ending;
    LineEndOf(line, ending);
    var tab := |e.key|;
    assert buff[tab] == '\t';
    assert forall k :: 0 <= k < tab ==> buff[k] == e.key[k];
    assert FindNextInline(buff, 0, '\t') == tab;
    assert buff[..tab] == e.key;
    assert buff[tab + 1..LineEnd(buff)] == Join(e.Values(), ' ');
    SplitJoin(e.Values(), ' ');
  }

  /** The number of values is the number of spaces after the tab plus one, so an accepted
      line always has a value, and it is a single-value entry exactly when no space follows
      the tab. */
  lemma ValueCount(buff: seq<char>, lineNum: nat)
    requires ParseLine(buff, lineNum).Ok?
    ensures var e := ParseLine(buff, lineNum).value;
            var rest := buff[|e.key| + 1..LineEnd(buff)];
            && |e.Values()| == Count(rest, ' ') + 1
            && (e.SingleValue? <==> ' ' !in rest)
  {
    var tab := FindNextInline(buff, 0, '\t');
    var rest := buff[tab + 1..LineEnd(buff)];
    if ' ' in rest {
      var k :| 0 <= k < |rest| && rest[k] == ' ';
      CountPositive(rest, ' ', k);
    } else {
      CountAbsent(rest, ' ');
    }
  }

  /** A line that starts with its tab is accepted with an empty key; its values are the
      fields after that tab. */
  lemma EmptyKeyAccepted(buff: seq<char>, lineNum: nat)
    requires |buff| >= 1 && buff[0] == '\t'
    ensures LineEnd(buff) >= 1
    ensures ParseLine(buff, lineNum) == Ok(NewEntry([], Split(buff[1..LineEnd(buff)], ' ')))
  {
    assert FindNextInline(buff, 0, '\t') == 0;
  }

  /** A tab right before the line end gives one empty value, not an error, whatever the key
      and whichever line or buffer end follows. */
  lemma TrailingTabGivesEmptyValue(key: seq<char>, ending: seq<char>, lineNum: nat)
    requires '\t' !in key && NoLineEnd(key)
    requires AtLineEnd(ending, 0)
    ensures ParseLine(key + ['\t'] + ending, lineNum) == Ok(SingleValue(key, []))
  {
    assert FormatLine(SingleValue(key, [])) == key + ['\t'];
    ParseFormat(SingleValue(key, []), ending, lineNum);
  }

  /** A tab-free key, a tab and a value text, up to a line or buffer end, give the key and
      exactly the space-separated fields of the value text; two adjacent spaces, or one at
      either end, give an empty value in place. */
  lemma ValuesAreFields(key: seq<char>, values: seq<char>, ending: seq<char>, lineNum: nat)
    requires '\t' !in key && NoLineEnd(key) && NoLineEnd(values)
    requires AtLineEnd(ending, 0)
    ensures ParseLine(key + ['\t'] + values + ending, lineNum) == Ok(NewEntry(key, Split(values, ' ')))
  {
    var line := key + ['\t'] + values;
    var buff := line + ending;
    assert forall k :: 0 <= k < |line| ==> !IsLineEndingOrFileEnding(line[k]) by {
      forall k | 0 <= k < |line|
        ensures !IsLineEndingOrFileEnding(line[k])
      {
        if k > |key| {
          assert line[k] == values[k - |key| - 1];
        }
      }
    }
    LineEndOf(line, ending);
    var tab := |key|;
    assert buff[tab] == '\t';
    assert forall k :: 0 <= k < tab ==> buff[k] == key[k];
    assert FindNextInline(buff, 0, '\t') == tab;
    assert buff[..tab] == key;
    assert buff[tab + 1..LineEnd(buff)] == values;
  }

  /** Doubled and trailing spaces give empty values in place; CR ends the line as LF does. */
  lemma SpacesGiveEmptyValues(lineNum: nat)
    ensures ParseLine("k\ta  b \r\n", lineNum) == Ok(MultiValue("k", ["a", "", "b", ""]))
  {
    var e := MultiValue("k", ["a", "", "b", ""]);
    var values := ["a", "", "b", ""];
    assert Join(values[3..], ' ') == "";
    assert Join(values[2..], ' ') == "b ";
    assert Join(values[1..], ' ') == " b ";
    assert Join(values, ' ') == "a  b ";
    assert FormatLine(e) == "k\ta  b ";
    assert forall i :: 0 <= i < |values| ==> ' ' !in values[i];
    assert NoLineEnd("k\ta  b ");
    assert "k\ta  b " + "\r\n" == "k\ta  b \r\n";
    ParseFormat(e, "\r\n", lineNum);
  }

  /** One step of the value scan: from a separator at `p` inside the line, the next field
      runs up to the next space or the line end, and the fields after `p` are that field
      followed by the fields after the next space. */
  lemma NextField(buff: seq<char>, p: nat, q: nat)
    requires p < LineEnd(buff)
    requires q == FindNextInline(buff, p + 1, ' ')
    ensures q <= LineEnd(buff)
    ensures q < LineEnd(buff) ==>
              Split(buff[p + 1..LineEnd(buff)], ' ') == [buff[p + 1..q]] + Split(buff[q + 1..LineEnd(buff)], ' ')
    ensures q == LineEnd(buff) ==>
              Split(buff[p + 1..LineEnd(buff)], ' ') == [buff[p + 1..q]]
  {
    var end := LineEnd(buff);
    assert q <= end;
    if q < end {
      assert !AtLineEnd(buff, q);
    }
    SplitSlice(buff, ' ', p + 1, q, end);
  }

  /** The state of the value scan of `buff` whose tab is at `tab`: the scan stands at `pbuff`
      (the tab, a separating space, or the line end), and `values` followed by the fields
      after `pbuff` are all the fields after the tab. */
  ghost predicate Scanned(buff: seq<char>, tab: nat, pbuff: nat, values: seq<string>)
  {
    var end := LineEnd(buff);
    && tab <= pbuff <= end
    && tab < end
    && (pbuff < end ==> Split(buff[tab + 1..end], ' ') == values + Split(buff[pbuff + 1..end], ' '))
    && (pbuff == end ==> Split(buff[tab + 1..end], ' ') == values)
    && (values == [] ==> pbuff == tab)
  }

  /** One turn of the value scan takes the field up to the next space or line end. */
  lemma ScanStep(buff: seq<char>, tab: nat, pbuff: nat, values: seq<string>, next: nat)
    requires Scanned(buff, tab, pbuff, values) && pbuff < LineEnd(buff)
    requires next == FindNextInline(buff, pbuff + 1, ' ')
    ensures pbuff < next
    ensures Scanned(buff, tab, next, values + [buff[pbuff + 1..next]])
  {
    var end := LineEnd(buff);
    var all := Split(buff[tab + 1..end], ' ');
    var value := buff[pbuff + 1..next];
    assert all == values + Split(buff[pbuff + 1..end], ' ');
    NextField(buff, pbuff, next);
    if next < end {
      var rest := Split(buff[next + 1..end], ' ');
      assert all == values + ([value] + rest);
      assert values + ([value] + rest) == (values + [value]) + rest;
    } else {
      assert all == values + [value];
    }
  }

  /** A scan that reached the line end holds exactly the values `ParseLine` yields. */
  lemma ScanDone(buff: seq<char>, lineNum: nat, tab: nat, values: seq<string>)
    requires tab == FindNextInline(buff, 0, '\t') && !AtLineEnd(buff, tab)
    requires Scanned(buff, tab, LineEnd(buff), values)
    ensures |values| >= 1
    ensures ParseLine(buff, lineNum) == Ok(NewEntry(buff[..tab], values))
  {
  }

  /** `ParseKeyValues` scans `buff` once: find the tab, then repeatedly step over one
      character and take the field up to the next space or line end as a value. */
  method ParseKeyValues(buff: seq<char>, lineNum: nat) returns (r: Result<DictEntry, Exception>)
    ensures r == ParseLine(buff, lineNum)
  {
    var pbuff := FindNextInline(buff, 0, '\t');
    if AtLineEnd(buff, pbuff) {
      return Err(TabularNotFound(buff, lineNum));
    }
    ghost var tab := pbuff;
    var key := buff[..pbuff];
    var values: seq<string> := [];
    assert Scanned(buff, tab, pbuff, values);
    while !AtLineEnd(buff, pbuff)
      invariant Scanned(buff, tab, pbuff, values)
      decreases |buff| - pbuff
    {
      var next := FindNextInline(buff, pbuff + 1, ' ');
      ScanStep(buff, tab, pbuff, values, next);
      values := values + [buff[pbuff + 1..next]];
      pbuff := next;
    }
    ScanDone(buff, lineNum, tab, values);
    if |values| == 0 {
      r := Err(InvalidTextDictionary("No value in an item", lineNum));
    } else if |values| == 1 {
      r := Ok(SingleValue(key, values[0]));
    } else {
      r := Ok(MultiValue(key, values));
    }
  }
}
