/** `PySERALogic._build_cli_kwargs` in both module variants, the
    `setdefault` of the selection keys that follows it, and the report
    setting's log level. The settings are the composed configuration; the
    key map is the parameter file's `cli_key_map` block in file order. */
module CliKwargs {
  import opened Wrappers
  import opened Text
  import opened Literals
  import opened Values
  import opened Config

  /** One keyword argument of the extraction call: the `str()` of a raw
      setting, or its coerced value. */
  datatype Arg = Verbatim(text: string) | Coerced(value: Norm)

  /** Destinations the main variant passes on as text. */
  const MainPassthrough: set<string> :=
    {"categories", "dimensions", "extraction_mode", "deep_learning_model", "report"}

  /** The extension variant passes `optional_params` on as text as well. */
  const ExtPassthrough: set<string> := MainPassthrough + {"optional_params"}

  const ModeKey: string := "radiomics_extraction_mode"
  const ModelKey: string := "radiomics_deep_learning_model"
  const OptionalKey: string := "radiomics_optional_params"
  const ReportKey: string := "radiomics_report"

  /** A raw setting the key map skips: None or the empty string. */
  predicate IsBlank(raw: PyVal) {
    raw.PNone? || raw == PStr("")
  }

  /** A coerced value worth passing: neither None nor the empty string. */
  predicate IsKept(n: Norm) {
    n != One(SNone) && n != One(SStr(""))
  }

  /** Every destination the key map names. */
  function Destinations(cliMap: seq<(string, string)>): set<string> {
    set i | 0 <= i < |cliMap| :: cliMap[i].1
  }

  /** What one key-map entry contributes, if anything. */
  function Translation(cfg: map<string, PyVal>, src: string, dst: string, passthrough: set<string>): (r: Option<Arg>)
    ensures src !in cfg || IsBlank(cfg[src]) ==> r.None?
    ensures r.Some? ==> (r.value.Verbatim? <==> dst in passthrough)
    ensures r.Some? && r.value.Verbatim? ==> r.value.text == Str(cfg[src])
    ensures r.Some? && r.value.Coerced? ==> r.value.value == Normalize(cfg[src]) && IsKept(r.value.value)
  {
    if src !in cfg || IsBlank(cfg[src]) then None
    else if dst in passthrough then Some(Verbatim(Str(cfg[src])))
    else
      var n := Normalize(cfg[src]);
      if IsKept(n) then Some(Coerced(n)) else None
  }

  /** The loop over the key map: entries are applied in order, so a later
      entry with the same destination overwrites an earlier one. Only
      destinations of the map appear, text exactly for the passthrough
      destinations, and no coerced value is None or empty. */
  function Translate(cfg: map<string, PyVal>, cliMap: seq<(string, string)>, passthrough: set<string>): (cli: map<string, Arg>)
    ensures forall d | d in cli :: d in Destinations(cliMap)
    ensures forall d | d in cli :: cli[d].Verbatim? <==> d in passthrough
    ensures forall d | d in cli && cli[d].Coerced? :: IsKept(cli[d].value)
  {
    if |cliMap| == 0 then map[]
    else
      var init := Translate(cfg, cliMap[..|cliMap| - 1], passthrough);
      assert Destinations(cliMap[..|cliMap| - 1]) <= Destinations(cliMap) by {
        forall d | d in Destinations(cliMap[..|cliMap| - 1])
          ensures d in Destinations(cliMap)
        {
          var i :| 0 <= i < |cliMap| - 1 && cliMap[..|cliMap| - 1][i].1 == d;
          assert cliMap[i].1 == d;
        }
      }
      var last := cliMap[|cliMap| - 1];
      match Translation(cfg, last.0, last.1, passthrough)
      case Some(a) => init[last.1 := a]
      case None => init
  }

  /** One step of the loop: the last entry of the key map is applied on top
      of the others. */
  lemma TranslateStep(cfg: map<string, PyVal>, cliMap: seq<(string, string)>, passthrough: set<string>)
    requires |cliMap| > 0
    ensures var n := |cliMap| - 1;
            var t := Translation(cfg, cliMap[n].0, cliMap[n].1, passthrough);
            var before := Translate(cfg, cliMap[..n], passthrough);
            Translate(cfg, cliMap, passthrough) == if t.Some? then before[cliMap[n].1 := t.value] else before
  {
  }

  /** The entry that decides a destination is the last one naming it that
      contributes anything. */
  lemma {:induction false} TranslateLastWriter(cfg: map<string, PyVal>, cliMap: seq<(string, string)>, passthrough: set<string>, j: nat)
    requires j < |cliMap|
    requires Translation(cfg, cliMap[j].0, cliMap[j].1, passthrough).Some?
    requires forall k | j < k < |cliMap| && cliMap[k].1 == cliMap[j].1 ::
               Translation(cfg, cliMap[k].0, cliMap[k].1, passthrough).None?
    ensures var cli := Translate(cfg, cliMap, passthrough);
            cliMap[j].1 in cli && cli[cliMap[j].1] == Translation(cfg, cliMap[j].0, cliMap[j].1, passthrough).value
  {
    var n := |cliMap| - 1;
    if j < n {
      var init := cliMap[..n];
      LaterSilentInPrefix(cfg, cliMap, passthrough, j);
      TranslateLastWriter(cfg, init, passthrough, j);
      KeptByLastStep(cfg, cliMap, passthrough, cliMap[j].1);
      assert Translate(cfg, cliMap, passthrough)[cliMap[j].1] == Translate(cfg, init, passthrough)[init[j].1];
    } else {
      LastEntryWrites(cfg, cliMap, passthrough);
    }
  }

  /** The last entry, when it contributes, decides its destination. */
  lemma LastEntryWrites(cfg: map<string, PyVal>, cliMap: seq<(string, string)>, passthrough: set<string>)
    requires |cliMap| > 0
    requires var n := |cliMap| - 1; Translation(cfg, cliMap[n].0, cliMap[n].1, passthrough).Some?
    ensures var n := |cliMap| - 1;
            var cli := Translate(cfg, cliMap, passthrough);
            cliMap[n].1 in cli && cli[cliMap[n].1] == Translation(cfg, cliMap[n].0, cliMap[n].1, passthrough).value
  {
    TranslateStep(cfg, cliMap, passthrough);
  }

  /** The entries after `j` that write its destination stay silent in the
      key map without its last entry, and the last entry does not write it. */
  lemma LaterSilentInPrefix(cfg: map<string, PyVal>, cliMap: seq<(string, string)>, passthrough: set<string>, j: nat)
    requires j < |cliMap| - 1
    requires forall k | j < k < |cliMap| && cliMap[k].1 == cliMap[j].1 ::
               Translation(cfg, cliMap[k].0, cliMap[k].1, passthrough).None?
    ensures var init := cliMap[..|cliMap| - 1];
            forall k | j < k < |init| && init[k].1 == init[j].1 ::
              Translation(cfg, init[k].0, init[k].1, passthrough).None?
    ensures var n := |cliMap| - 1;
            Translation(cfg, cliMap[n].0, cliMap[n].1, passthrough).None? || cliMap[n].1 != cliMap[j].1
    ensures cliMap[..|cliMap| - 1][j] == cliMap[j]
  {
    var n := |cliMap| - 1;
    assert forall k | 0 <= k < n :: cliMap[..n][k] == cliMap[k];
  }

  /** A destination the last entry does not write keeps the value the
      other entries gave it. */
  lemma KeptByLastStep(cfg: map<string, PyVal>, cliMap: seq<(string, string)>, passthrough: set<string>, d: string)
    requires |cliMap| > 0
    requires d in Translate(cfg, cliMap[..|cliMap| - 1], passthrough)
    requires var n := |cliMap| - 1;
             Translation(cfg, cliMap[n].0, cliMap[n].1, passthrough).None? || cliMap[n].1 != d
    ensures var n := |cliMap| - 1;
            var before := Translate(cfg, cliMap[..n], passthrough);
            var cli := Translate(cfg, cliMap, passthrough);
            d in cli && cli[d] == before[d]
  {
    var n := |cliMap| - 1;
    TranslateStep(cfg, cliMap, passthrough);
    var t := Translation(cfg, cliMap[n].0, cliMap[n].1, passthrough);
    var before := Translate(cfg, cliMap[..n], passthrough);
    StepKeeps(before, t, cliMap[n].1, d, before[d]);
  }

  /** Applying one entry leaves a destination it does not write alone. */
  lemma StepKeeps(before: map<string, Arg>, t: Option<Arg>, dst: string, d: string, v: Arg)
    requires d in before && before[d] == v
    requires t.None? || dst != d
    ensures var after := if t.Some? then before[dst := t.value] else before;
            d in after && after[d] == v
  {
  }

  /** A destination no entry contributes to is absent. */
  lemma {:induction false} TranslateUnwritten(cfg: map<string, PyVal>, cliMap: seq<(string, string)>, passthrough: set<string>, d: string)
    requires forall k | 0 <= k < |cliMap| && cliMap[k].1 == d ::
               Translation(cfg, cliMap[k].0, cliMap[k].1, passthrough).None?
    ensures d !in Translate(cfg, cliMap, passthrough)
  {
    if |cliMap| > 0 {
      var init := cliMap[..|cliMap| - 1];
      forall k | 0 <= k < |init| && init[k].1 == d
        ensures Translation(cfg, init[k].0, init[k].1, passthrough).None?
      {
        assert init[k] == cliMap[k];
      }
      TranslateUnwritten(cfg, init, passthrough, d);
    }
  }

  /** Two passthrough sets that agree on every destination of the map give
      the same arguments. */
  lemma {:induction false} TranslatePassthroughAgree(cfg: map<string, PyVal>, cliMap: seq<(string, string)>, pt1: set<string>, pt2: set<string>)
    requires forall i | 0 <= i < |cliMap| :: cliMap[i].1 in pt1 <==> cliMap[i].1 in pt2
    ensures Translate(cfg, cliMap, pt1) == Translate(cfg, cliMap, pt2)
  {
    if |cliMap| > 0 {
      var init := cliMap[..|cliMap| - 1];
      forall i | 0 <= i < |init|
        ensures init[i].1 in pt1 <==> init[i].1 in pt2
      {
        assert init[i] == cliMap[i];
      }
      TranslatePassthroughAgree(cfg, init, pt1, pt2);
    }
  }

  // ---------- the forced and conditional keys ----------

  /** `extraction_mode` is always set, from the setting or its default. */
  function ModeArg(cfg: map<string, PyVal>): Arg {
    Verbatim(Str(Get(cfg, ModeKey, PStr("handcrafted_feature"))))
  }

  /** The model is passed when it is set, not None, and its text is neither
      blank nor "none" in any case. */
  predicate ModelWanted(cfg: map<string, PyVal>) {
    var model := Get(cfg, ModelKey, PNone);
    !model.PNone? && Lower(Strip(Str(model))) != "" && Lower(Strip(Str(model))) != "none"
  }

  /** A setting that is not None and whose text is not blank. */
  predicate Present(cfg: map<string, PyVal>, key: string) {
    var v := Get(cfg, key, PNone);
    !v.PNone? && Strip(Str(v)) != ""
  }

  /** The extension variant checks the report key's presence instead of
      None, so a None report is passed as the text "None". */
  predicate ExtReportWanted(cfg: map<string, PyVal>) {
    ReportKey in cfg && Strip(Str(cfg[ReportKey])) != ""
  }

  function SetIf(cli: map<string, Arg>, cond: bool, key: string, a: Arg): (r: map<string, Arg>)
    ensures cond ==> key in r && r[key] == a
    ensures forall k | k != key || !cond :: (k in r <==> k in cli) && (k in r ==> r[k] == cli[k])
  {
    if cond then cli[key := a] else cli
  }

  /** `_build_cli_kwargs` of the main module. */
  function BuildMain(cfg: map<string, PyVal>, cliMap: seq<(string, string)>): (cli: map<string, Arg>)
    ensures forall d | d in cli ::
              d in Destinations(cliMap) || d == "extraction_mode" || d == "deep_learning_model" || d == "report"
    ensures "extraction_mode" in cli && cli["extraction_mode"] == ModeArg(cfg)
    ensures ModelWanted(cfg) ==> "deep_learning_model" in cli && cli["deep_learning_model"] == Verbatim(Str(cfg[ModelKey]))
    ensures Present(cfg, ReportKey) ==> "report" in cli && cli["report"] == Verbatim(Str(cfg[ReportKey]))
    ensures var t := Translate(cfg, cliMap, MainPassthrough);
            forall d | d != "extraction_mode" && (d != "deep_learning_model" || !ModelWanted(cfg))
                       && (d != "report" || !Present(cfg, ReportKey)) ::
              (d in cli <==> d in t) && (d in cli ==> cli[d] == t[d])
  {
    var t := Translate(cfg, cliMap, MainPassthrough);
    var withMode := t["extraction_mode" := ModeArg(cfg)];
    var withModel := SetIf(withMode, ModelWanted(cfg), "deep_learning_model", Verbatim(Str(Get(cfg, ModelKey, PNone))));
    SetIf(withModel, Present(cfg, ReportKey), "report", Verbatim(Str(Get(cfg, ReportKey, PNone))))
  }

  /** `_build_cli_kwargs` of the extension module. Its output path argument
      is never read, so it is not a parameter here. */
  function BuildExt(cfg: map<string, PyVal>, cliMap: seq<(string, string)>): (cli: map<string, Arg>)
    ensures forall d | d in cli ::
              d in Destinations(cliMap) || d == "extraction_mode" || d == "deep_learning_model"
              || d == "optional_params" || d == "report"
    ensures "extraction_mode" in cli && cli["extraction_mode"] == ModeArg(cfg)
    ensures ModelWanted(cfg) ==> "deep_learning_model" in cli && cli["deep_learning_model"] == Verbatim(Str(cfg[ModelKey]))
    ensures Present(cfg, OptionalKey) ==> "optional_params" in cli && cli["optional_params"] == Verbatim(Str(cfg[OptionalKey]))
    ensures ExtReportWanted(cfg) ==> "report" in cli && cli["report"] == Verbatim(Str(cfg[ReportKey]))
    ensures var t := Translate(cfg, cliMap, ExtPassthrough);
            forall d | d != "extraction_mode" && (d != "deep_learning_model" || !ModelWanted(cfg))
                       && (d != "optional_params" || !Present(cfg, OptionalKey))
                       && (d != "report" || !ExtReportWanted(cfg)) ::
              (d in cli <==> d in t) && (d in cli ==> cli[d] == t[d])
  {
    var t := Translate(cfg, cliMap, ExtPassthrough);
    var withMode := t["extraction_mode" := ModeArg(cfg)];
    var withModel := SetIf(withMode, ModelWanted(cfg), "deep_learning_model", Verbatim(Str(Get(cfg, ModelKey, PNone))));
    var withOptional := SetIf(withModel, Present(cfg, OptionalKey), "optional_params", Verbatim(Str(Get(cfg, OptionalKey, PNone))));
    SetIf(withOptional, ExtReportWanted(cfg), "report", Verbatim(Str(Get(cfg, ReportKey, PNone))))
  }

  /** The two variants differ only in `optional_params` and in a report set
      to None: when neither comes into play they build the same arguments. */
  lemma VariantsAgree(cfg: map<string, PyVal>, cliMap: seq<(string, string)>)
    requires "optional_params" !in Destinations(cliMap)
    requires !Present(cfg, OptionalKey)
    requires ReportKey in cfg ==> !cfg[ReportKey].PNone?
    ensures BuildMain(cfg, cliMap) == BuildExt(cfg, cliMap)
  {
    forall i | 0 <= i < |cliMap|
      ensures cliMap[i].1 in MainPassthrough <==> cliMap[i].1 in ExtPassthrough
    {
      assert cliMap[i].1 in Destinations(cliMap);
    }
    TranslatePassthroughAgree(cfg, cliMap, MainPassthrough, ExtPassthrough);
    assert Present(cfg, ReportKey) == ExtReportWanted(cfg);
  }

  /** A report set to None: the main variant leaves `report` out, the
      extension variant passes the text "None". */
  lemma NoneReportVariants(cfg: map<string, PyVal>, cliMap: seq<(string, string)>)
    requires "report" !in Destinations(cliMap)
    requires ReportKey in cfg && cfg[ReportKey].PNone?
    ensures "report" !in BuildMain(cfg, cliMap)
    ensures "report" in BuildExt(cfg, cliMap) && BuildExt(cfg, cliMap)["report"] == Verbatim("None")
  {
  }

  // ---------- after the build ----------

  /** The `setdefault` of `categories` and `dimensions`: a value already
      present is kept, a missing one is taken from the setting, "all" when
      unset. */
  function WithSelectionDefaults(cli: map<string, Arg>, cfg: map<string, PyVal>): (r: map<string, Arg>)
    ensures r.Keys == cli.Keys + {"categories", "dimensions"}
    ensures forall k | k in cli :: r[k] == cli[k]
    ensures "categories" !in cli ==> r["categories"] == Verbatim(Str(Get(cfg, "radiomics_categories", PStr("all"))))
    ensures "dimensions" !in cli ==> r["dimensions"] == Verbatim(Str(Get(cfg, "radiomics_dimensions", PStr("all"))))
  {
    var withCategories :=
      if "categories" in cli then cli
      else cli["categories" := Verbatim(Str(Get(cfg, "radiomics_categories", PStr("all"))))];
    if "dimensions" in withCategories then withCategories
    else withCategories["dimensions" := Verbatim(Str(Get(cfg, "radiomics_dimensions", PStr("all"))))]
  }

  // ---------- the report setting as a log level ----------

  const Debug: int := 10
  const Info: int := 20
  const Warning: int := 30
  const Error: int := 40
  const Critical: int := 50

  /** The level map's lookup, with DEBUG for any other selection. */
  function ReportLevel(sel: string): (level: int)
    ensures level == Critical + 1 || level == Error || level == Warning || level == Info || level == Debug
    ensures level == Critical + 1 <==> sel == "none"
    ensures level == Error <==> sel == "error"
    ensures level == Warning <==> sel == "warning"
    ensures level == Info <==> sel == "info"
    ensures level == Debug <==> sel !in {"none", "error", "warning", "info"}
  {
    if sel == "none" then Critical + 1
    else if sel == "error" then Error
    else if sel == "warning" then Warning
    else if sel == "info" then Info
    else Debug
  }

  /** The logging level the report setting selects: the level of its
      stripped, lower-cased text, and DEBUG ("all") when unset. */
  function LogLevel(cfg: map<string, PyVal>): (level: int)
    ensures ReportKey !in cfg ==> level == Debug
    ensures ReportKey in cfg ==> level == ReportLevel(Lower(Strip(Str(cfg[ReportKey]))))
  {
    NoSpaceIsStripped("all");
    ReportLevel(Lower(Strip(Str(Get(cfg, ReportKey, PStr("all"))))))
  }

  /** The report setting is read without regard to case or surrounding
      whitespace. */
  lemma LogLevelIgnoresCaseAndSpace(cfg: map<string, PyVal>, a: string, t: string, b: string)
    requires AllSpace(a) && AllSpace(b)
    ensures LogLevel(cfg[ReportKey := PStr(a + t + b)]) == LogLevel(cfg[ReportKey := PStr(Lower(t))])
  {
    StripSurrounded(a, t, b);
    StripLower(t);
    LowerIdempotent(Strip(t));
  }

  /** With no report setting, everything is logged. */
  lemma LogLevelUnset(cfg: map<string, PyVal>)
    requires ReportKey !in cfg
    ensures LogLevel(cfg) == Debug
  {
    NoSpaceIsStripped("all");
  }
}
