/** The `Wasm` pipeline builder: segmentation dictionaries, pending conversion dictionaries,
    finished conversion stages and, once built, a converter. */
module WasmBuilder {
  import opened Wrappers
  import opened Text
  import opened Opencc
  import opened KeyValueParser
  import opened Lexicon

  const PushConversionNeeded := "'Wasm.PushConversion' needs at least one dict text."
  const DictTextNeeded := "'Wasm.CreateConverter' needs at least one dict text."
  const ConversionNeeded := "'Wasm.CreateConverter' needs at least one conversion."
  const ConverterNeeded := "You need `Wasm.CreateConverter` before 'Wasm.Convert'."

  /** The name every built converter carries. */
  const PlaceholderName := "(NULL_WASM_TODO)"

  /** Every dictionary is a text dictionary. */
  predicate AllTextDicts(dicts: seq<Dict>)
  {
    forall i :: 0 <= i < |dicts| ==> dicts[i].TextDict?
  }

  /** The dictionary a stage is built over when `pending` is finalized: the sole pending
      dictionary itself, or a group of all of them in order. */
  function StageDict(pending: seq<Dict>): Dict
    requires |pending| >= 1
  {
    if |pending| == 1 then pending[0] else DictGroup(pending)
  }

  /** The dictionaries a stage dictionary is built over, in order. */
  function Members(d: Dict): seq<Dict>
  {
    if d.DictGroup? then d.dicts else [d]
  }

  /** A stage dictionary is one text dictionary or a group of at least two. */
  predicate IsStageDict(d: Dict)
  {
    d.TextDict? || (d.DictGroup? && |d.dicts| >= 2 && AllTextDicts(d.dicts))
  }

  /** A finalized stage is built over exactly the pending text dictionaries, in the order
      they were pushed, and is the sole one itself when there is one. */
  lemma StageDictMembers(pending: seq<Dict>)
    requires |pending| >= 1 && AllTextDicts(pending)
    ensures IsStageDict(StageDict(pending))
    ensures Members(StageDict(pending)) == pending
  {
    if |pending| == 1 {
      assert pending[0].TextDict?;
    }
  }

  /** A converter as `CreateConverter` builds it: the placeholder name, segmentation over a
      group of at least one text dictionary, and a non-empty chain of stages. */
  predicate IsBuilt(c: Converter)
  {
    && c.name == PlaceholderName
    && c.segmentation.dict.DictGroup?
    && |c.segmentation.dict.dicts| >= 1
    && AllTextDicts(c.segmentation.dict.dicts)
    && |c.chain.conversions| >= 1
    && forall i :: 0 <= i < |c.chain.conversions| ==> IsStageDict(c.chain.conversions[i].dict)
  }

  class Wasm {
    var textDictList: seq<Dict>
    var convertionDictList: seq<Dict>
    var convertions: seq<Conversion>
    var converter: Option<Converter>

    /** Lists hold text dictionaries, stages are built over stage dictionaries, and a set
        converter is a built one. */
    ghost predicate Valid()
      reads this
    {
      && AllTextDicts(textDictList)
      && AllTextDicts(convertionDictList)
      && (forall i :: 0 <= i < |convertions| ==> IsStageDict(convertions[i].dict))
      && (converter.Some? ==> IsBuilt(converter.value))
    }

    constructor()
      ensures Valid()
      ensures textDictList == [] && convertionDictList == [] && convertions == []
      ensures converter == None
    {
      textDictList := [];
      convertionDictList := [];
      convertions := [];
      converter := None;
    }

    /** Parses every `'\n'`-terminated line of `text` in order, numbering lines from 1, and
        stops at the first line that fails. */
    method CreateDictFromString(text: string) returns (r: Result<seq<DictEntry>, Exception>)
      ensures r == LexiconOf(text)
    {
      var lexicon: seq<DictEntry> := [];
      var index: nat := 0;
      var next := Find(text, '\n', index);
      var lineNum: nat := 1;
      ghost var lines := Lines(text);
      ghost var k: nat := 0;
      while next.Some?
        invariant index <= |text| && next == Find(text, '\n', index)
        invariant k <= |lines| && LinesAt(text, index) == lines[k..]
        invariant lineNum == 1 + k && |lexicon| == k
        invariant forall j :: 0 <= j < k ==> ParseLine(lines[j], 1 + j) == Ok(lexicon[j])
        decreases |text| - index
      {
        var buffer := text[index..next.value + 1];
        assert buffer == lines[k];
        var entry := ParseKeyValues(buffer, lineNum);
        if entry.Err? {
          ParseLinesFirstError(lines, 1, k);
          return Err(entry.error);
        }
        assert lines[k + 1..] == lines[k..][1..];
        lexicon := lexicon + [entry.value];
        lineNum := lineNum + 1;
        k := k + 1;
        index := next.value + 1;
        next := Find(text, '\n', index);
      }
      assert k == |lines|;
      ParseLinesOk(lines, 1);
      assert LexiconOf(text).Ok?;
      assert LexiconOf(text).value == lexicon;
      r := Ok(lexicon);
    }

    /** A text dictionary over the lexicon of `text`, or the error that aborted it. */
    method CreateTextDict(text: string) returns (r: Result<Dict, Exception>)
      ensures LexiconOf(text).Ok? ==> r == Ok(TextDict(LexiconOf(text).value))
      ensures LexiconOf(text).Err? ==> r == Err(LexiconOf(text).error)
    {
      var lex := CreateDictFromString(text);
      if lex.Err? {
        return Err(lex.error);
      }
      r := Ok(TextDict(lex.value));
    }

    /** Appends one segmentation dictionary built from `text`; a parse error changes
        nothing. */
    method PushSegmentation(text: string) returns (s: Outcome<Exception>)
      requires Valid()
      modifies this
      ensures Valid()
      ensures LexiconOf(text).Ok? ==>
                s == Pass && textDictList == old(textDictList) + [TextDict(LexiconOf(text).value)]
      ensures LexiconOf(text).Err? ==>
                s == Fail(LexiconOf(text).error) && textDictList == old(textDictList)
      ensures convertionDictList == old(convertionDictList)
      ensures convertions == old(convertions) && converter == old(converter)
    {
      var dict := CreateTextDict(text);
      if dict.Err? {
        return Fail(dict.error);
      }
      textDictList := textDictList + [dict.value];
      s := Pass;
    }

    /** Finalizes the pending conversion dictionaries into one stage and clears them; with
        none pending it fails and changes nothing. */
    method CreateConvertionGroup() returns (s: Outcome<Exception>)
      requires Valid()
      modifies this
      ensures Valid()
      ensures old(convertionDictList) == [] ==>
                && s == Fail(RuntimeError(PushConversionNeeded))
                && convertionDictList == [] && convertions == old(convertions)
      ensures old(convertionDictList) != [] ==>
                && s == Pass
                && convertions == old(convertions) + [Conversion(StageDict(old(convertionDictList)))]
                && convertionDictList == []
      ensures textDictList == old(textDictList) && converter == old(converter)
    {
      if |convertionDictList| == 0 {
        return Fail(RuntimeError(PushConversionNeeded));
      }
      var dict: Dict;
      if |convertionDictList| == 1 {
        dict := convertionDictList[0];
      } else {
        dict := DictGroup(convertionDictList);
      }
      StageDictMembers(convertionDictList);
      var conversion := Conversion(dict);
      convertions := convertions + [conversion];
      convertionDictList := [];
      s := Pass;
    }

    /** Appends one pending conversion dictionary built from `text`; a parse error changes
        nothing. */
    method PushConversion(text: string) returns (s: Outcome<Exception>)
      requires Valid()
      modifies this
      ensures Valid()
      ensures LexiconOf(text).Ok? ==>
                s == Pass && convertionDictList == old(convertionDictList) + [TextDict(LexiconOf(text).value)]
      ensures LexiconOf(text).Err? ==>
                s == Fail(LexiconOf(text).error) && convertionDictList == old(convertionDictList)
      ensures textDictList == old(textDictList)
      ensures convertions == old(convertions) && converter == old(converter)
    {
      var dict := CreateTextDict(text);
      if dict.Err? {
        return Fail(dict.error);
      }
      convertionDictList := convertionDictList + [dict.value];
      s := Pass;
    }

    /** Builds the converter from a group of all segmentation dictionaries and a chain of
        all finished stages in order; the lists are kept, so it can be built again. */
    method CreateConverter() returns (s: Outcome<Exception>)
      requires Valid()
      modifies this
      ensures Valid()
      ensures old(textDictList) == [] ==>
                s == Fail(RuntimeError(DictTextNeeded)) && converter == old(converter)
      ensures old(textDictList) != [] && old(convertions) == [] ==>
                s == Fail(RuntimeError(ConversionNeeded)) && converter == old(converter)
      ensures old(textDictList) != [] && old(convertions) != [] ==>
                && s == Pass
                && converter == Some(Converter(PlaceholderName,
                                               MaxMatchSegmentation(DictGroup(old(textDictList))),
                                               ConversionChain(old(convertions))))
      ensures textDictList == old(textDictList) && convertionDictList == old(convertionDictList)
      ensures convertions == old(convertions)
    {
      if |textDictList| == 0 {
        return Fail(RuntimeError(DictTextNeeded));
      }
      if |convertions| == 0 {
        return Fail(RuntimeError(ConversionNeeded));
      }
      var dict := DictGroup(textDictList);
      var segmentation := MaxMatchSegmentation(dict);
      var chain := ConversionChain(convertions);
      var name := PlaceholderName;
      converter := Some(Converter(name, segmentation, chain));
      s := Pass;
    }

    /** Converts `text` with the built converter, whose own conversion is `run`; fails while
        no converter has been built. */
    method Convert(text: string, run: (Converter, string) -> string) returns (r: Result<string, Exception>)
      ensures converter.None? ==> r == Err(RuntimeError(ConverterNeeded))
      ensures converter.Some? ==> r == Ok(run(converter.value, text))
    {
      if converter.None? {
        return Err(RuntimeError(ConverterNeeded));
      }
      r := Ok(run(converter.value, text));
    }
  }
}
