/** The OpenCC values the builder assembles. Their lookup and conversion behaviour lives
    outside this model; here each is the value it is built from. */
module Opencc {

  /** One parsed dictionary line: a key with one value, or with an ordered candidate list. */
  datatype DictEntry =
    | SingleValue(key: string, value: string)
    | MultiValue(key: string, values: seq<string>)
  {
    /** The entry's values in source order. */
    function Values(): seq<string>
    {
      if SingleValue? then [value] else values
    }
  }

  /** The exceptions the core throws. */
  datatype Exception =
    | InvalidTextDictionary(message: string, lineNum: nat)
    | RuntimeError(message: string)

  /** A dictionary: a `TextDict` over a lexicon, or a `DictGroup` of member dictionaries. */
  datatype Dict =
    | TextDict(lexicon: seq<DictEntry>)
    | DictGroup(dicts: seq<Dict>)

  /** One conversion stage over its dictionary. */
  datatype Conversion = Conversion(dict: Dict)

  /** Longest-match segmentation over a dictionary. */
  datatype Segmentation = MaxMatchSegmentation(dict: Dict)

  /** Conversion stages applied in order. */
  datatype ConversionChain = ConversionChain(conversions: seq<Conversion>)

  /** A named converter: segmentation followed by a conversion chain. */
  datatype Converter = Converter(name: string, segmentation: Segmentation, chain: ConversionChain)
}
