# PySERA logic core in Dafny

PySERA is a 3D Slicer extension that wraps a radiomics feature extractor.
Around the opaque extraction call sit a few plain, sequential routines. This
project models them as pure Dafny functions over immutable values, and proves
what each one promises:

- **Config** (`config.dfy`). This is `PySERALogic._normalize`, which coerces
  a raw setting to None, an int, a float token, `"auto"`, a string, or a list
  of those. It also covers `_compose_cfg`, the three-layer overlay of the
  parameter file's defaults, its top-level `radiomics_*` keys and the UI
  values. Both module variants (`PySERA/PySera.py` and
  `PySera_Ext/PySera.py`) have the same `_normalize`. The extension variant's
  `_compose_cfg` is modelled as `ComposeExt` and proved equal to the main
  one.
- **CliKwargs** (`clikwargs.dfy`). This is `_build_cli_kwargs` in both
  variants: the key-map loop with its passthrough set, then the forced and
  conditional keys. It also covers the `setdefault` of categories and
  dimensions that follows it, and the report setting's log level.
- **ResultRows** (`resultrows.dfy`). This is `feature_rows_from_result`
  with its `_filter_meta` deny-list. The payload shapes (table, mapping,
  2xN lists, general lists, JSON text, anything else) are tried in the
  source's order, and the first one that matches decides.
- **CsvRows** (`csvrows.dfy`). This is `_wait_for_readable_file`, a bounded
  retry over an abstract outcome per attempt. It also covers the row
  interpretation in `load_features_as_feature_value_rows`: the long, wide
  and loose layouts.
- **CliCoerce** (`clicoerce.dfy`). These are the two command-line entry
  points. One is `_coerce_value` with its merge loop
  (`PySERA/PySeraCLI/PySeraCLIModule.py`, entry point A). The other is the
  inline typed coercion and merge in `main` (`PySeraCLI/PySeraCLIModule.py`,
  entry point B). Each returns a `Result` whose error is what Python would
  raise.
- **Widgets** (`widget.dfy`). These are the UI helpers with logic of their
  own:
  - `_shorten_for_cell`;
  - the selection strings built in `onCompute`;
  - the extraction-mode canonicalisation;
  - `_on_dimension_changed` as a pure function over check-box states;
  - `_set_combo_safe` as a first-match search.
- **Shared modules.** Four modules supply the Python semantics the core
  relies on:
  - `Text`: `strip`, `lower`, `split` and `join`;
  - `Literals`: what `int()` and `float()` accept;
  - `Values`: a Python value datatype with insertion-ordered dicts, `str()`
    and `repr()`;
  - `Wrappers`: `Option` and `Result`.

Floats are not computed. The `Float` type holds a `repr()` token for a
native float, or the literal text that `float()` accepted. `json.loads` is a
function parameter, where `None` stands for "raises". The CSV reader and the
file system are parameters too.

## Model

| member | source | states |
|---|---|---|
| Config.Normalize | PySERA/PySera.py:221-227 | None stays None, a bool becomes 0 or 1, and ints and floats are returned unchanged |
| Config.NormalizeOfText | PySERA/PySera.py:228 | any other value is normalised through its stripped `str()` text |
| Config.NormalizeText | PySERA/PySera.py:228-247 | the result is a list exactly when the stripped text holds a comma, and then item i is the normalised i-th comma-separated part; comma-free text that is not blank, "none" or "auto" takes the number case, so text that `float()` or `int()` rejects is kept as itself |
| Config.NormalizeStripped | PySERA/PySera.py:229-253 | blank text gives "", "none" in any case None, "auto" in any case "auto"; text with a comma gives the list of its normalised parts; any other text takes the number case; a list exactly when there is a comma |
| Config.NormalizeList | PySERA/PySera.py:236-247 | the comma case gives a list with exactly one item per comma-separated part, item i being that part normalised |
| Config.NormalizeParts | PySERA/PySera.py:238-246 | parts are normalised independently and kept in order |
| Config.NormalizePart | PySERA/PySera.py:238-246 | a part is None exactly when it strips to "none" in any case; an int exactly when the stripped part is all digits, with the value they spell; a float token of the stripped part when `float()` accepts it; otherwise the stripped part itself |
| Config.NormalizeNumber | PySERA/PySera.py:248-253 | never None; a float exactly when the text holds "." or "e" in any case and `float()` accepts it; otherwise an int exactly when `int()` accepts it, with its value; otherwise the text itself |
| Config.NormalizeEmptyText | PySERA/PySera.py:227-230 | blank text, empty or all whitespace, normalises to the empty string |
| Config.NormalizeNoneWord | PySERA/PySera.py:227-232 | text that strips to "none" in any case normalises to None |
| Config.NormalizeFloatText | PySERA/PySera.py:248-250 | comma-free text holding "." or "e" that `float()` accepts normalises to the float token of its stripped text |
| Config.NormalizeNumberText | PySERA/PySera.py:228-253 | comma-free text that is not blank, "none" or "auto" normalises through the number case |
| Config.NormalizeIntWord | PySERA/PySera.py:248-251 | comma-free text without "." or "e" that `int()` accepts normalises to that int |
| Config.NormalizeAutoWord | PySERA/PySera.py:234-235 | "auto" in any case normalises to "auto" |
| Config.NormalizeStrippedStrings | PySERA/PySera.py:229-253 | a string result is "", "auto" or the stripped text itself, so nothing raises and failures fall back to the text |
| Config.NormalizeFallbackKeepsText | PySERA/PySera.py:248-253 | a fallback string result is the stripped text of a non-numeric value without commas, which `int()` rejects |
| Config.StrippedFallback | PySERA/PySera.py:248-253 | on stripped text, the fallback returns the text itself and only when `int()` rejects it |
| Config.FallbackIsNumberCase | PySERA/PySera.py:248-253 | a fallback result always comes from the number branch, never the list branch |
| Config.NormalizeScalarFixedPoint | PySERA/PySera.py:221-253 | normalising a normalised scalar again changes nothing |
| Config.NormalizeTextScalarFixedPoint | PySERA/PySera.py:228-253 | the same fixed point for text settings |
| Config.NormalizeIgnoresSurroundingSpace | PySERA/PySera.py:228 | surrounding whitespace does not change the result |
| Config.NormalizeIntText | PySERA/PySera.py:248-251 | the text of any integer normalises back to that integer |
| Config.NormalizePartNat | PySERA/PySera.py:244 | an all-digit list part becomes its integer |
| Config.NormalizePartNegative | PySERA/PySera.py:244 | a negative integer part fails `isdigit` and becomes a float token |
| Config.NormalizeNatList | PySERA/PySera.py:236-247 | comma-joined naturals normalise to the list of those integers |
| Config.NormalizeNatParts | PySERA/PySera.py:238-246 | each natural's text becomes that integer, in order |
| Config.Namespaced | PySERA/PySera.py:257-258 | every default key appears with the `radiomics_` prefix and its value, and nothing else appears |
| Config.FileOverrides | PySERA/PySera.py:259-261 | only top-level keys starting with `radiomics_` are taken from the file |
| Config.Compose | PySERA/PySera.py:255-263 | UI values beat file keys, which beat prefixed defaults; no key of any layer is dropped, and nothing else appears |
| Config.ComposeExt | PySera_Ext/PySera.py:140-152 | re-setting the two folder keys is redundant, so the result equals the main composition |
| CliKwargs.Translation | PySERA/PySera.py:270-281 | an absent, None or empty source is skipped; a passthrough destination gets `str(raw)`; any other gets the normalised value, or nothing when that is None or "" |
| CliKwargs.Translate | PySERA/PySera.py:266-281 | only destinations named in the key map appear, text exactly for the passthrough set, and no coerced value is None or "" |
| CliKwargs.TranslateLastWriter | PySERA/PySera.py:269-281 | a destination holds the contribution of the last entry that names it and contributes |
| CliKwargs.TranslateUnwritten | PySERA/PySera.py:269-281 | a destination no entry contributes to is absent |
| CliKwargs.TranslatePassthroughAgree | PySera_Ext/PySera.py:156-172 | passthrough sets that agree on the map's destinations translate alike |
| CliKwargs.BuildMain | PySERA/PySera.py:265-293 | `extraction_mode` is always set, defaulting to "handcrafted_feature"; the model setting overrides the loop only when it is not blank or "none", and the report setting only when it is not blank; otherwise the loop's value, if any, stays; no other key appears |
| CliKwargs.BuildExt | PySera_Ext/PySera.py:154-188 | the same, plus `optional_params` overriding when present, and the report setting overriding whenever the key is present and not blank |
| CliKwargs.VariantsAgree | PySera_Ext/PySera.py:174-186 | without optional parameters and without a None report, the two variants build the same arguments |
| CliKwargs.NoneReportVariants | PySera_Ext/PySera.py:185-186 | a None report is skipped by the main variant but passed as "None" by the extension |
| CliKwargs.WithSelectionDefaults | PySERA/PySera.py:328-329 | categories and dimensions are added from the settings, default "all", only when missing; nothing else changes |
| CliKwargs.ReportLevel | PySERA/PySera.py:297-305 | "none" gives a level above CRITICAL, "error", "warning" and "info" their levels, and any other text (including "all") DEBUG, each exactly |
| CliKwargs.LogLevel | PySERA/PySera.py:303-305 | the level of the report setting's stripped, lower-cased `str()`, and DEBUG when the setting is missing |
| CliKwargs.LogLevelIgnoresCaseAndSpace | PySera_Ext/PySera.py:207-215 | the report text is read ignoring case and surrounding whitespace |
| CliKwargs.LogLevelUnset | PySera_Ext/PySera.py:214-215 | with no report setting the level is DEBUG |
| ResultRows.FilterMeta | PySERA/PySera.py:362-369 | exactly the rows whose stripped, lower-cased name is not an identifier survive, no longer than the input |
| ResultRows.FilterMetaAppend | PySERA/PySera.py:362-369 | the filter works row by row, so it distributes over concatenation and keeps order |
| ResultRows.FilterMetaKeepsClean | PySERA/PySera.py:362-369 | rows without identifiers pass unchanged |
| ResultRows.FilterMetaIdempotent | PySERA/PySera.py:362-369 | filtering twice is filtering once |
| ResultRows.NameSurvivesFilter | PySERA/PySera.py:362-369 | a non-identifier name survives the filter |
| ResultRows.PatientIdIsMeta | PySERA/PySera.py:363-366 | "PatientID" is dropped as an identifier |
| ResultRows.FilterExample | PySERA/PySera.py:362-369 | an identifier row is removed and a feature row kept |
| ResultRows.AtMostTotal | PySERA/PySera.py:415 | string order is total |
| ResultRows.AtMostTransitive | PySERA/PySera.py:415 | string order is transitive |
| ResultRows.AtMostAntisymmetric | PySERA/PySera.py:415 | string order is antisymmetric |
| ResultRows.AtMostReflexive | PySERA/PySera.py:415 | string order is reflexive |
| ResultRows.Insert | PySERA/PySera.py:415 | insertion keeps a sorted list sorted and adds exactly one element |
| ResultRows.SortKeys | PySERA/PySera.py:413-417 | the keys come out sorted and as a permutation of the input |
| ResultRows.SortedUnique | PySERA/PySera.py:413-417 | two sorted permutations of the same keys are equal, so the sort result is determined |
| ResultRows.KeyRows | PySERA/PySera.py:418 | one row per key in the given order, each with that key's value |
| ResultRows.MappingRows | PySERA/PySera.py:412-418 | no row names an identifier |
| ResultRows.MappingRowsSpec | PySERA/PySera.py:412-418 | mapping rows are in sorted key order, carry the mapping's values and include every non-identifier key; when the keys are distinct, as a dict's are, no name occurs twice, so each non-identifier key gives exactly one row |
| ResultRows.MappingRowsOrderFree | PySERA/PySera.py:412-418 | the rows do not depend on the insertion order of the mapping |
| ResultRows.FilterMetaKeepsSorted | PySERA/PySera.py:412-418 | filtering keeps sorted rows sorted |
| ResultRows.TwoKeyMapping | PySERA/PySera.py:412-418 | a two-key mapping comes out in sorted key order |
| ResultRows.PayloadOfMapping | PySERA/PySera.py:412-418 | a mapping payload gives its mapping rows |
| ResultRows.TableRows | PySERA/PySera.py:402-408 | a table gives one row per column, in column order, with the first record's value or None |
| ResultRows.Transpose | PySERA/PySera.py:420-431 | a 2xN list gives the i-th name's text with the i-th value |
| ResultRows.TransposeExample | PySERA/PySera.py:420-431 | `[["f1","f2"],[10,20]]` gives `f1=10, f2=20` |
| ResultRows.TransposeTwo | PySERA/PySera.py:420-431 | a 2x2 list of two non-identifier names gives their two rows, in order |
| ResultRows.TransposedRows | PySERA/PySera.py:420-431 | with no identifier among the names, a 2xN list gives each name's text with its aligned value, in order |
| ResultRows.EntryRows | PySERA/PySera.py:441-442 | a dict item without a feature/value pair gives all its entries, in order |
| ResultRows.ItemRows | PySERA/PySera.py:434-442 | a sequence of two or more gives `(str(first), second)` and a shorter one nothing; a dict holding both `feature` and `value` gives that one pair, any other dict all its entries in order; anything else gives nothing |
| ResultRows.PairRowsAppend | PySERA/PySera.py:433-443 | the general list case works item by item: it distributes over concatenation, so the rows keep the items' order |
| ResultRows.PairRowsOne | PySERA/PySera.py:434-442 | a one-item list gives that item's rows |
| ResultRows.ListRows | PySERA/PySera.py:420-443 | a list's rows name no identifier |
| ResultRows.ListRowsSpec | PySERA/PySera.py:420-443 | a 2xN list gives exactly the transposed rows, identifiers dropped, in their order; any other list gives exactly the rows of its items, identifiers dropped, in their order; each case also stated as two-way membership |
| ResultRows.ListRowsInOrder | PySERA/PySera.py:433-443 | in the general list case the items' rows come out in item order, identifiers dropped |
| ResultRows.StringRows | PySERA/PySera.py:445-458 | text that decodes to a mapping gives that mapping's rows; text that decodes to anything else, or fails to decode, gives the one fallback row holding the original text |
| ResultRows.FallbackRowIsNotMeta | PySERA/PySera.py:458-460 | the fallback row's name is not an identifier |
| ResultRows.PayloadRows | PySERA/PySera.py:371-460 | a table with a record gives exactly its column rows in column order, identifiers dropped, and one without gives the fallback row of its text; a mapping, list or string gives that shape's rows; anything else gives the fallback row of its `str()`; only the fallback row can escape the filter |
| ResultRows.FeatureRows | PySERA/PySera.py:354-360 | a non-dict result, or a missing or None payload, gives no rows |
| ResultRows.FeatureRowsOfPayload | PySERA/PySera.py:355-360 | a dict result whose payload entry is present and not None gives that payload's rows, whatever else the result holds |
| ResultRows.PayloadOnly | PySERA/PySera.py:355-360 | a result holding only a payload that is not None gives the payload's rows |
| ResultRows.FeatureRowsHaveNoMeta | PySERA/PySera.py:362-460 | no row of the result names an identifier |
| CsvRows.WaitForReadableFile | PySERA/PySera.py:464-476 | at most `retries` attempts; success at the first ready attempt; otherwise the last error observed is raised, and "not ready" is reported only when nothing raised |
| CsvRows.Classify | PySERA/PySera.py:487-506 | no rows exactly for an empty file; long exactly when the header's first two cells are a name label and a value label; wide exactly when it is not long and a second row is as long as a header of two or more cells; loose otherwise |
| CsvRows.LongPairs | PySERA/PySera.py:494-499 | at most one pair per row; a first row of two or more cells gives the first pair, its first two cells |
| CsvRows.LongPairsContent | PySERA/PySera.py:494-499 | the pairs are exactly the first two cells of the rows that have two |
| CsvRows.LongPairsAppend | PySERA/PySera.py:494-499 | the long layout works row by row: it distributes over concatenation, so pairs keep row order |
| CsvRows.LongPairsOne | PySERA/PySera.py:496-498 | one row gives its first two cells, or nothing when it has fewer |
| CsvRows.LongPairsKeepAll | PySERA/PySera.py:494-499 | when every later row has two cells, each gives its first two cells, in order |
| CsvRows.WidePairs | PySERA/PySera.py:502-504 | each header cell is paired with the cell below it |
| CsvRows.LoosePairs | PySERA/PySera.py:506-511 | at most one pair per row; a non-empty first row gives the first pair, its cells re-joined with commas and an empty value |
| CsvRows.LoosePairsContent | PySERA/PySera.py:506-511 | the pairs are exactly the non-empty rows re-joined with commas, each with an empty value |
| CsvRows.LoosePairsAppend | PySERA/PySera.py:506-511 | the loose reading works row by row: it distributes over concatenation, so pairs keep row order |
| CsvRows.LoosePairsOne | PySERA/PySera.py:507-510 | one row gives its re-joined cells with an empty value, or nothing when it is empty |
| CsvRows.LoosePairsSplit | PySERA/PySera.py:506-511 | a loose name splits back at its commas into the non-empty row it came from |
| CsvRows.CsvFeaturePairs | PySERA/PySera.py:487-511 | no rows give no pairs; long: exactly the first two cells of the later rows that have two, row by row in order; wide: each header cell with the cell below it, in order; loose: exactly the non-empty later rows re-joined with an empty value, row by row in order |
| CsvRows.LoadFeaturePairs | PySERA/PySera.py:478-511 | rows are read only after a ready attempt; a file that is never ready gives no rows; the load raises exactly when no attempt is ready and some attempt failed, and then it raises the last failure |
| CsvRows.FeatureValueHeader | PySERA/PySera.py:491-494 | any file whose header starts "Feature,Value" is read in the long layout |
| CsvRows.LongExample | PySERA/PySera.py:493-499 | a feature/value header over one row gives that one pair |
| CsvRows.WideExample | PySERA/PySera.py:501-504 | header `f1,f2` over `1,2` gives two aligned pairs |
| Literals.ParseFloat | PySERA/PySera.py:250 | `float()` accepts exactly the texts that strip to a float literal, and the result is the literal of the stripped text |
| Literals.ParseIntOfIntToString | PySERA/PySera.py:251 | `int(str(i)) == i` |
| CliCoerce.FloatsOf | PySERA/PySeraCLI/PySeraCLIModule.py:86 | the list succeeds exactly when every part parses, with one float per part in order; otherwise the first failing part raises |
| CliCoerce.NonBlank | PySERA/PySeraCLI/PySeraCLIModule.py:86 | exactly the parts that are not blank after strip are kept |
| CliCoerce.NonBlankAppend | PySERA/PySeraCLI/PySeraCLIModule.py:86 | blank parts are dropped one by one: the filter distributes over concatenation, so kept parts stay in order |
| CliCoerce.NonBlankOne | PySERA/PySeraCLI/PySeraCLIModule.py:86 | one part is kept exactly when it is not blank |
| CliCoerce.BlankIsNoFloat | PySeraCLI/PySeraCLIModule.py:74 | a blank part is rejected by `float()` |
| CliCoerce.IntParam | PySERA/PySeraCLI/PySeraCLIModule.py:81-82 | `int()` succeeds exactly on integer text, and a failure raises |
| CliCoerce.FloatParam | PySERA/PySeraCLI/PySeraCLIModule.py:83-84 | `float()` succeeds exactly on float text, and a failure raises |
| CliCoerce.ListParam | PySERA/PySeraCLI/PySeraCLIModule.py:85-86 | a list of floats, one per part and in order, exactly when every stripped part parses; otherwise it raises with the first part `float()` rejects, every earlier part parsing |
| CliCoerce.TypeName | PySERA/PySeraCLI/PySeraCLIModule.py:78 | a falsy type is ""; a non-empty string gives exactly its lower-cased text; any other type raises |
| CliCoerce.TagA | PySERA/PySeraCLI/PySeraCLIModule.py:78-87 | "bool" or "boolean", "int", "float" and "list" in any case select their coercions; a falsy type or any other name passes the value through; a type with no `lower()` raises |
| CliCoerce.CoerceByTagA | PySERA/PySeraCLI/PySeraCLIModule.py:79-87 | bool is true exactly for true/1/yes/y/on after strip and lower; int and float have no fallback; list drops blank parts; other types pass the text |
| CliCoerce.CoerceA | PySERA/PySeraCLI/PySeraCLIModule.py:77-87 | a type name that cannot be lower-cased raises; "int", "float" and "list" in any case apply `int()`, `float()` and the blank-dropping list; a falsy type passes the text |
| CliCoerce.TagAIgnoresCase | PySERA/PySeraCLI/PySeraCLIModule.py:78 | type names are matched case-insensitively |
| CliCoerce.TagABoolNames | PySERA/PySeraCLI/PySeraCLIModule.py:79 | "bool" and "boolean" select bool |
| CliCoerce.TagANumberNames | PySERA/PySeraCLI/PySeraCLIModule.py:81-84 | "int" and "float" select the number coercions |
| CliCoerce.TagAListName | PySERA/PySeraCLI/PySeraCLIModule.py:85 | "list" selects the list coercion |
| CliCoerce.BoolAIgnoresCaseAndSpace | PySERA/PySeraCLI/PySeraCLIModule.py:80 | the bool coercion ignores case and surrounding whitespace |
| CliCoerce.CoerceAIntRoundTrip | PySERA/PySeraCLI/PySeraCLIModule.py:81-82 | an integer's text coerces back to that integer |
| CliCoerce.DictEntries | PySERA/PySeraCLI/PySeraCLIModule.py:106-108 | exactly the dict entries are kept, and non-dict entries are skipped |
| CliCoerce.MergeA | PySERA/PySeraCLI/PySeraCLIModule.py:105-116 | one parameter per dict entry, in order: the coerced override if given, else the entry's value; the merge fails exactly when a coercion raises, and it raises the error of the first failing entry, every earlier entry succeeding |
| CliCoerce.FirstFailureConsA | PySERA/PySeraCLI/PySeraCLIModule.py:106-116 | a dict entry that succeeds does not change which later entry fails first, nor its error |
| CliCoerce.TagB | PySeraCLI/PySeraCLIModule.py:66-76 | each of "bool", "int", "float" and "list" selects its coercion exactly when the type is that string, case-sensitive; anything else passes the raw text |
| CliCoerce.CoerceByTagB | PySeraCLI/PySeraCLIModule.py:66-76 | bool is true exactly for true/1/yes after lower only; list parses every part, blank ones included |
| CliCoerce.CoerceB | PySeraCLI/PySeraCLIModule.py:66-76 | "bool" gives true exactly for true/1/yes after lower only; "int" and "float" raise on bad text; "list" parses every comma part; any other type passes the raw text |
| CliCoerce.FirstFailureConsB | PySeraCLI/PySeraCLIModule.py:62-78 | an entry that succeeds does not change which later entry fails first, nor its error |
| CliCoerce.MergeBLoop | PySeraCLI/PySeraCLIModule.py:61-78 | one parameter per key, in order: the coerced override if given, else the entry's value; fails exactly when an entry raises, with the error of the first failing entry, every earlier entry succeeding |
| CliCoerce.MergeB | PySeraCLI/PySeraCLIModule.py:55-78 | any entry without a default raises while the options are declared; when every entry has one, the merge succeeds exactly when every entry's parameter does, one per entry in order, and on failure it raises the first failing entry's error, every earlier entry succeeding |
| CliCoerce.MergeDefaultsAgree | PySeraCLI/PySeraCLIModule.py:61-78 | with no overrides and all defaults present, both entry points produce the same parameters |
| CliCoerce.MergeLoopsAgree | PySERA/PySeraCLI/PySeraCLIModule.py:105-116 | the same for the two merge loops alone |
| CliCoerce.BoolVariantsDifferOnSpace | PySeraCLI/PySeraCLIModule.py:67-68 | " yes" is true for entry point A and false for B |
| CliCoerce.BoolVariantsDifferOnWords | PySeraCLI/PySeraCLIModule.py:67-68 | "on" is true for A and false for B |
| CliCoerce.ListADropsBlank | PySERA/PySeraCLI/PySeraCLIModule.py:86 | A skips an empty part between two numbers |
| CliCoerce.ListBRaisesOnBlank | PySeraCLI/PySeraCLIModule.py:74 | B raises on the same input |
| Widgets.ReplaceNewlines | PySERA/PySera.py:661 | each newline becomes a space and every other character is kept |
| Widgets.Cleaned | PySERA/PySera.py:660-661 | None gives ""; any other value gives `str(v)` with each newline turned into a space and the surrounding whitespace stripped, so the text has no newline and no surrounding whitespace |
| Widgets.PyPrefix | PySERA/PySera.py:664 | Python's `s[:n]`: a prefix of the text, `n` long clamped to the text, and for negative `n` the text without its last `-n` characters |
| Widgets.ShortenForCellAsWritten | PySERA/PySera.py:659-664 | text that fits is kept; longer text becomes `s[:max_len-1]` followed by the ellipsis |
| Widgets.ShortenForCell | PySERA/PySera.py:659-664 | never longer than the bound; text that fits is unchanged; longer text keeps a prefix and ends in the ellipsis, using the whole bound |
| Widgets.Shorten | PySERA/PySera.py:662-664 | the same cut on the cleaned text |
| Widgets.ShortenKeepsClean | PySERA/PySera.py:662-664 | cutting keeps a text on one line and free of surrounding whitespace |
| Widgets.OvershootsOnTwo | PySERA/PySera.py:662-664 | with bound 0, a cell text of two non-space characters becomes its first character and the ellipsis, overshooting the bound |
| Widgets.ShortenForCellAgrees | PySERA/PySera.py:662-664 | for a bound of at least one, the corrected function is the source's |
| Widgets.ShortenForCellAsWrittenOvershoots | PySERA/PySera.py:664 | with bound 0, "ab" gives "a…", which is longer than the bound |
| Widgets.ShortenForCellIdempotent | PySERA/PySera.py:659-664 | shortening a shortened cell changes nothing |
| Widgets.ShortenedIsClean | PySERA/PySera.py:660-664 | a shortened cell has no newline and no surrounding whitespace |
| Widgets.Selected | PySERA/PySera.py:1412 | the checked labels: empty exactly when none is checked, full length exactly when all are; every checked box's label is present and every label present comes from a checked box |
| Widgets.SelectedAppend | PySERA/PySera.py:1412 | the selection works box by box: it distributes over concatenation, so labels keep display order |
| Widgets.SelectedOne | PySERA/PySera.py:1412 | one box contributes its label exactly when it is checked |
| Widgets.SelectionString | PySERA/PySera.py:1413 | "all" when nothing or everything is selected |
| Widgets.SelectionStringSplit | PySERA/PySera.py:1413 | a partial selection splits back at commas into the selected labels |
| Widgets.SelectionStringAll | PySERA/PySera.py:1413 | "all" comes only from an empty or full selection, or from the single label "all" |
| Widgets.CanonicalMode | PySera_Ext/PySera.py:788-789 | "handcrafted_feature" exactly when the stripped, lower-cased text contains "handcrafted" at some index, otherwise "deep_feature" |
| Text.ContainsAt | PySera_Ext/PySera.py:789 | `sub in s` holds exactly when `sub` occurs at some index of `s` |
| Widgets.ModeOf | PySERA/PySera.py:1426-1427 | a missing mode defaults to the handcrafted label and so to "handcrafted_feature"; a present value is canonicalised through its `str()` |
| Widgets.ExtModeOf | PySera_Ext/PySera.py:788-789 | a non-string mode raises, a missing one is handcrafted, and a present string is canonicalised |
| Widgets.ModeVariantsAgree | PySera_Ext/PySera.py:788-789 | where the extension variant does not raise, it agrees with the main one |
| Widgets.HandLabelModes | PySERA/PySera.py:1426-1427 | both handcrafted labels map to "handcrafted_feature" |
| Widgets.DeepLabelMode | PySERA/PySera.py:1427 | "Deep Features" maps to "deep_feature" |
| Widgets.CanonicalModeIdempotent | PySera_Ext/PySera.py:789 | canonicalising a canonical mode changes nothing |
| Widgets.CanonicalModeIgnoresCase | PySera_Ext/PySera.py:788 | case does not matter |
| Widgets.HandcraftedPrefix | PySera_Ext/PySera.py:789 | text starting with "handcrafted" in any case is handcrafted |
| Widgets.NoH | PySera_Ext/PySera.py:789 | text without an "h" is deep |
| Widgets.CheckedNames | PySERA/PySera.py:628-632 | exactly the stripped, lower-cased texts of the checked dimensions |
| Widgets.WantedSpec | PySERA/PySera.py:649-653 | a category is wanted exactly when some checked dimension offers it, in any order |
| Widgets.AliasWantsAlike | PySERA/PySera.py:651 | "2.5d" and "2_5d" want the same categories |
| Widgets.SetAll | PySERA/PySera.py:635-640 | every box gets the state, and labels are kept |
| Widgets.Retick | PySERA/PySera.py:655-656 | only the box that owns its name in the name map changes, and labels are kept |
| Widgets.DimensionSync | PySERA/PySera.py:624-656 | "all" checks everything; no checked dimension unchecks every category; otherwise a named category is checked exactly when a checked dimension offers it, and the rest are untouched |
| Widgets.DimensionSyncIdempotent | PySERA/PySera.py:624-656 | a second sync, as triggered by the toggles of the first, changes nothing |
| Widgets.AllDimensionSelectsAll | PySERA/PySera.py:634-641 | after "all" is checked, both selection strings are "all" |
| Widgets.SetComboSafe | PySERA/PySera.py:555-569 | None leaves the index alone; otherwise the first case-insensitive match is selected, or the index is unchanged when nothing matches |

## Left out

- Qt and ctk widget construction, table filling, column widths, timers and status labels are left out. They hold no logic beyond the helpers above.
- `_poll_csv_until_ready` is left out because a QTimer drives it. `_wait_for_readable_file` is modelled with the outcome of each attempt as a parameter; sleeping and file-system checks are not modelled.
- `pysera.process_batch` is left out as an opaque foreign call. `_make_output_csv` is left out because it depends on the clock, random numbers and `makedirs`.
- Logging, `_ensure_package_available` and parameter-file loading (YAML/JSON from disk) are left out as host-environment I/O. The loaded blocks are parameters.
- `json.loads` is a function parameter, not a parser.
- The CSV reader is left out: the model starts from already-split rows.
- Literals.ParseFloat: only recognises `float()` literals and yields a token; no floating-point value is computed. Underscore digit separators are not accepted, which Python would accept.
- Literals.ParseIntOfIntToString: covers only the round trip. `int()`'s underscores and non-ASCII digits are not modelled.
- Text: `lower`, `strip` and `isdigit` are modelled on ASCII characters. `strip` removes exactly the ASCII characters Python treats as whitespace (tab to carriage return, 0x1C to 0x1F, and the space). Unicode whitespace such as U+0085 and U+00A0, Unicode digits and Python's Unicode case mapping are not modelled.
- Values.Str: `str()` of a native float is its stored `repr()` token, and `repr()` of a string does not escape quotes or control characters.
- ResultRows.TableRows: the DataFrame duck typing (`to_dict(orient="records")`, `iloc`, column maps) is reduced to "columns plus first record".
- ResultRows.PayloadRows: dicts have string keys only. `str(k)` of other key types, and a failing `keys.sort()` on mixed key types, are not modelled.
- CliCoerce.TypeName: a float type of value 0.0 is falsy in Python but is treated as a non-string here, so it raises instead of passing through.
- CliCoerce.MergeA and CliCoerce.MergeB: argparse's option parsing is left out. The overrides are given as a map from parameter key to text. `getattr(args, key)` for a key containing `-` (argparse stores it under `_`) is not modelled.
- CliCoerce.MergeB: reaching the merge requires every entry to have a `value`, because the option declarations before it index `['value']`. That failure is folded into the merge's error.
- CliKwargs.BuildExt: the unused `output_csv` argument is dropped.
- Widgets.DimensionSync: re-entrant `toggled` signals are not simulated. DimensionSyncIdempotent shows that they reach the same state.
- Widgets.ModeOf: the main variant reads the mode through `str()`. The extension variant raises on a non-string, and ExtModeOf models that.
- Three behaviours of the code are easy to misread, and the model keeps them as written:
  - In a comma list, the "none" check comes before the `isdigit` check.
  - The extension's `_on_dimension_changed` has no ignore flag, so it is modelled with `ignoring` false.
  - When two category boxes share a name, the last one wins in the name map that the sync uses.

## Findings

| source | as written | input that shows it | evidently intended | confidence | as-written member | corrected member |
|---|---|---|---|---|---|---|
| PySERA/PySera.py:662-664 | a text longer than `max_len` becomes `s[:max_len-1] + "…"` | `max_len = 0` and text "ab": `s[:-1]` is "a", so the result is "a…" with length 2 > 0 | the result never exceeds `max_len` characters | not executed | Widgets.ShortenForCellAsWritten (Widgets.ShortenForCellAsWrittenOvershoots) | Widgets.ShortenForCell |
