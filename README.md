# wasm-opencc: dictionary text parsing and the `Wasm` pipeline builder

This project models the logic of `src/wasm/Wasm.cpp`, the WebAssembly front end of an
OpenCC-based converter between Chinese script variants. The file has three parts:

- **`ParseKeyValues`** reads one line of the text dictionary format `KEY<TAB>V1( V2)*`.
  The key is everything before the first tab. The values are the space-separated fields
  after it. Scanning stops at a line or buffer end (`'\0'`, `'\n'` or `'\r'`).
  One value gives a single-value entry; more give a multi-value entry.
  A line with no tab throws `InvalidTextDictionary` with its line number.
- **`CreateDictFromString`** builds a lexicon from a text blob. It parses every
  `'\n'`-terminated line in order, numbering lines from 1. The first failing line aborts
  the whole blob.
- **Class `Wasm`**, the pipeline builder. It keeps three lists and an optional converter:
  - `textDictList`: segmentation dictionaries;
  - `convertionDictList`: pending conversion dictionaries;
  - `convertions`: finished conversion stages;
  - `converter`: set once `CreateConverter` succeeds.

  `PushSegmentation` and `PushConversion` append a parsed dictionary to one list.
  `CreateConvertionGroup` turns the pending dictionaries into one stage and clears them.
  `CreateConverter` assembles the converter. `Convert` refuses to run before that.

Layout, one module per file:

- `wrappers.dfy`: `Option`, `Result` and `Outcome`, which stand in for exceptions and
  `npos`.
- `text.dfy`: `std::string::find` (`Find`), splitting on a separator (`Split`) and its
  inverse `Join`.
- `utf8_util.dfy`: the `UTF8Util` line scanners. Text is a sequence of code points, so
  stepping over one UTF-8 sequence is stepping over one `char`.
- `opencc.dfy`: the OpenCC values the builder assembles: `DictEntry`, `Dict`
  (`TextDict | DictGroup`), `Conversion`, `Segmentation`, `ConversionChain`, `Converter`,
  and the exceptions.
- `key_value_parser.dfy`: the specification `ParseLine`, the scanning method
  `ParseKeyValues` proved equal to it, and the properties of the format.
- `lexicon.dfy`: the specification `LexiconOf`, with the line splitting `Lines` and the
  abort-on-first-error fold `ParseLines`.
- `wasm.dfy`: class `Wasm`, its object invariant `Valid`, and the loop
  `CreateDictFromString`, proved equal to `LexiconOf`.

Behaviour of the code that is easy to miss, all of it stated and proved in the model:

- An empty key is accepted: a line that starts with its tab gives the key `""`.
- `K<TAB>` followed by the line end gives one value, the empty string `""`.
  Doubled or trailing spaces also give empty values, in place.
- The "No value in an item" error (`Wasm.cpp:28-29`) cannot happen, because the value scan
  always yields at least one field. The method keeps the branch, and the verifier shows it
  is dead.
- A blank line (`"\n"` or `"\r\n"`) has no tab, so it aborts the whole blob wherever it
  stands, including just before the end.
- Text after the last `'\n'` of a blob is ignored, not parsed as a final line.
- `CreateConverter` always wraps the segmentation dictionaries in a `DictGroup`, even when
  there is only one.
- The converter's name is the fixed `"(NULL_WASM_TODO)"`.

## Model

| member | source | states |
|---|---|---|
| `Text.Find` | src/wasm/Wasm.cpp:118 | `find('\n', index)` returns the first position at or after `index` holding the character, with none before it, or `None` (npos) when there is none |
| `Text.Split` | src/wasm/Wasm.cpp:21-27 | the space-separated fields number one more than the spaces, so there is always at least one value |
| `Text.SplitFieldsFree` | src/wasm/Wasm.cpp:23-25 | no value contains the separator |
| `Text.JoinSplit` | src/wasm/Wasm.cpp:21-27 | the values rejoined with single spaces give back exactly the text they came from |
| `Text.SplitJoin` | src/wasm/Wasm.cpp:21-27 | values without spaces, joined with spaces and scanned again, come back unchanged and in order |
| `Text.SplitAt` | src/wasm/Wasm.cpp:23-26 | the first field ends at the first separator, and the remaining fields are those after it |
| `Utf8Util.FindNextInline` | src/wasm/Wasm.cpp:14 | the scan stops at the first wanted character or line/buffer end, and skips only characters that are neither |
| `Utf8Util.LineEnd` | src/wasm/Wasm.cpp:21 | the first line or buffer end of a line: nothing before it ends the line |
| `Utf8Util.LineEndOf` | src/wasm/Wasm.cpp:21 | a line without endings followed by an ending ends exactly at its own length |
| `KeyValueParser.ParseKeyValues` | src/wasm/Wasm.cpp:12-35 | the scanning loop computes exactly `ParseLine`: rejection without a tab, otherwise the key before the tab and the fields after it, as a single- or multi-value entry |
| `KeyValueParser.ParseRejects` | src/wasm/Wasm.cpp:14-17 | a line is rejected iff no tab precedes its first line end, with `InvalidTextDictionary("Tabular not found " + buffer, lineNum)` |
| `KeyValueParser.FormatParse` | src/wasm/Wasm.cpp:18-27 | an accepted line's entry, written back as key, tab and space-joined values, is exactly the line up to its end; its key has no tab and its values no space |
| `KeyValueParser.ParseFormat` | src/wasm/Wasm.cpp:12-35 | a well-formed entry written out and parsed back, followed by any line ending or none, is the same entry |
| `KeyValueParser.ValueCount` | src/wasm/Wasm.cpp:21-34 | the value count is the spaces after the tab plus one; single-value iff no space follows the tab |
| `KeyValueParser.EmptyKeyAccepted` | src/wasm/Wasm.cpp:14-26 | every line that starts with a tab is accepted with the empty key, its values being the space-separated fields after that tab |
| `KeyValueParser.TrailingTabGivesEmptyValue` | src/wasm/Wasm.cpp:21-31 | any tab-free key followed by a tab and then any line or buffer end yields the single value `""`, not an error |
| `KeyValueParser.ValuesAreFields` | src/wasm/Wasm.cpp:14-34 | a tab-free key, a tab and any value text up to a line end yield that key and exactly the space-separated fields of the value text, empty fields included |
| `KeyValueParser.SpacesGiveEmptyValues` | src/wasm/Wasm.cpp:21-34 | the line `k<TAB>a  b <CR><LF>` yields the values `a`, `""`, `b`, `""`: doubled and trailing spaces give empty values in place, and CR ends the line |
| `KeyValueParser.NextField` | src/wasm/Wasm.cpp:22-26 | one loop step: the value runs from after the separator to the next space or line end, and the rest of the fields follow it |
| `Lexicon.LinesShape` | src/wasm/Wasm.cpp:117-129 | there is one line per `'\n'`; each line ends with its `'\n'` and holds no other |
| `Lexicon.LinesCover` | src/wasm/Wasm.cpp:121-129 | the lines, concatenated, are the text up to and including its last `'\n'`, and nothing after that is a `'\n'` |
| `Lexicon.LinesIgnoreTail` | src/wasm/Wasm.cpp:121 | text without `'\n'` appended after the last `'\n'` does not change the lines |
| `Lexicon.CountThroughNext` | src/wasm/Wasm.cpp:118-128 | where `find` reports the next `'\n'`, the text from `index` on holds exactly one more `'\n'` than the text after it, so each turn consumes one line |
| `Lexicon.ParseLinesOk` | src/wasm/Wasm.cpp:121-129 | construction succeeds iff every line parses under its own number, and then has one entry per line, in order |
| `Lexicon.ParseLinesFirstError` | src/wasm/Wasm.cpp:124 | the first failing line aborts construction with that line's error |
| `Lexicon.LexiconEntries` | src/wasm/Wasm.cpp:117-131 | a built lexicon has one entry per `'\n'`, entry k being the parse of line k+1 under number k+1 |
| `Lexicon.LexiconIgnoresTail` | src/wasm/Wasm.cpp:121-129 | characters after the last `'\n'` never affect the lexicon |
| `Lexicon.TwoLines` | src/wasm/Wasm.cpp:117-129 | two `'\n'`-terminated lines written one after the other are read back as exactly those two lines, in order |
| `Lexicon.SecondLineAborts` | src/wasm/Wasm.cpp:117-128 | any good first line followed by any failing second line, and any unterminated tail, aborts the blob with the second line's error raised under line number 2 |
| `Lexicon.BlankLineAborts` | src/wasm/Wasm.cpp:14-17 | a blob with a blank line anywhere, one that starts with its line end, fails |
| `WasmBuilder.StageDictMembers` | src/wasm/Wasm.cpp:58-64 | a finalized stage is built over exactly the pending dictionaries, in order, and is the sole one itself when there is one |
| `WasmBuilder.Wasm.constructor` | src/wasm/Wasm.cpp:39 | a new builder has three empty lists and no converter |
| `WasmBuilder.Wasm.CreateDictFromString` | src/wasm/Wasm.cpp:112-132 | the line loop computes exactly `LexiconOf`: all `'\n'`-terminated lines parsed in order from line 1, stopping at the first error |
| `WasmBuilder.Wasm.CreateTextDict` | src/wasm/Wasm.cpp:134-138 | a text dictionary over the blob's lexicon, or the error that aborted it |
| `WasmBuilder.Wasm.PushSegmentation` | src/wasm/Wasm.cpp:48-50 | appends exactly one dictionary to `textDictList` and changes no other field; on a parse error nothing changes |
| `WasmBuilder.Wasm.PushConversion` | src/wasm/Wasm.cpp:71-73 | appends exactly one dictionary to `convertionDictList` and changes no other field; on a parse error nothing changes |
| `WasmBuilder.Wasm.CreateConvertionGroup` | src/wasm/Wasm.cpp:52-69 | with nothing pending it fails and changes nothing; otherwise it appends one stage over the sole pending dictionary or a group of all of them, clears the pending list, and leaves `textDictList` and `converter` alone |
| `WasmBuilder.Wasm.CreateConverter` | src/wasm/Wasm.cpp:75-94 | fails without segmentation dictionaries, then without stages; otherwise sets the converter from a group of all segmentation dictionaries and the chain of all stages in order, clearing no list |
| `WasmBuilder.Wasm.Convert` | src/wasm/Wasm.cpp:96-103 | fails while no converter is set; otherwise returns what the converter makes of the text |

## Left out

- The Emscripten bindings (`Wasm.cpp:146-154`) are host glue.
- How OpenCC converts text is outside this model. `Wasm.cpp` builds `DictGroup` (:63,
  :86), `Conversion` (:66), `MaxMatchSegmentation` (:88), `ConversionChain` (:89),
  `Converter` (:93) and `TextDict` (:136), and calls `Converter::Convert` (:102). What
  these do, including `DictGroup` lookup precedence, is defined in OpenCC headers that
  are not part of this file. The model treats each as the value it is built from. `Wasm.Convert` takes the converter's own conversion as a parameter
  `run`.
- The source of the `UTF8Util` helpers is not part of this model. `utf8_util.dfy`
  defines `IsLineEndingOrFileEnding`, `FindNextInline` and `LineEnd` from two
  assumptions: the terminators are exactly `'\0'`, `'\n'` and `'\r'`, and `NextChar`
  steps over one whole code point. Malformed UTF-8 sequences are not modelled.
- The 4096-byte stack buffer and `memcpy` (`Wasm.cpp:113, 122-123`) are not modelled.
  The model hands each line to the parser as exactly the copied characters. A line longer
  than 4095 bytes would overflow that buffer, and the model does not capture this.
  For the same reason, the "Tabular not found" message holds the copied line only. In the
  source it is read from the buffer up to a NUL that may lie past the copied bytes.
- `CreateDictFromStringLine` (`Wasm.cpp:106-108`) only forwards to `ParseKeyValues`. The
  model calls `ParseKeyValues` directly.
- `Lexicon::Add` is modelled as appending to a sequence.
- Line numbers and positions are unbounded naturals. The `size_t` and `long` widths never
  matter for the text sizes involved.
- Shared ownership of the `DictPtr`, `ConversionPtr` and `ConverterPtr` handles is not
  modelled, and neither is the destructor (`Wasm.cpp:41-46`).
