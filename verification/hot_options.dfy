/** The options of a transformation (lib/make-hot.js:6-39, 186-196): the
    defaults, the shallow merge of the caller's options over them, and the
    state-preservation flag that is recomputed before the options are
    serialised into the generated code. */
module HotOptions {
  import opened Wrappers
  import opened JsValues
  import opened Text

  /** A plain JavaScript object of options: key to value. */
  type Options = map<string, JsValue>

  /** The binding name the generated code imports the proxy adapter under. */
  const GlobalAdapterName := "___SVELTE_HMR_HOT_API_PROXY_ADAPTER"

  /** `defaultHotOptions`. */
  const DefaultHotOptions: Options := map[
    "noPreserveState" := Bool(false),
    "noPreserveStateKey" := Str("@!hmr"),
    "noReload" := Bool(false),
    "optimistic" := Bool(false),
    "acceptNamedExports" := Bool(true),
    "acceptAccessors" := Bool(true),
    "injectCss" := Bool(true),
    "cssEjectDelay" := Num(100),
    "native" := Bool(false),
    "compatVite" := Bool(false),
    "importAdapterName" := Str(GlobalAdapterName),
    "absoluteImports" := Bool(true)
  ]

  /** Reading a property: a missing key reads as `undefined`. */
  function Get(o: Options, key: string): JsValue
  {
    if key in o then o[key] else Undefined
  }

  /** The shallow merge of `arg` over a fresh copy of `defaults`: every key of either object, the
      value taken from `arg` whenever `arg` has the key, even when that value
      is `undefined`.  An absent `arg` is the empty object. */
  function Merge(defaults: Options, arg: Options): (r: Options)
    ensures forall k :: k in r <==> k in defaults || k in arg
    ensures forall k :: k in arg ==> r[k] == arg[k]
    ensures forall k :: k in defaults && k !in arg ==> r[k] == defaults[k]
  {
    defaults + arg
  }

  /** The derived state-preservation flag, keeping the operand values that
      JavaScript's `||` and `&&` yield: the raw flag when it is truthy;
      otherwise the escape-hatch key when that is falsy; otherwise the
      original code when it is absent (`None`) or empty; otherwise whether
      that code contains the key.  When the raw flag is falsy the result is
      a boolean or a falsy value. */
  function NoPreserveState(hotOptions: Options, originalCode: Option<string>): (r: JsValue)
    ensures Truthy(Get(hotOptions, "noPreserveState")) ==> r == Get(hotOptions, "noPreserveState")
    ensures !Truthy(Get(hotOptions, "noPreserveState")) ==> r.Bool? || !Truthy(r)
  {
    var raw := Get(hotOptions, "noPreserveState");
    var key := Get(hotOptions, "noPreserveStateKey");
    if Truthy(raw) then raw
    else if !Truthy(key) then key
    else match originalCode
      case None => Undefined
      case Some(code) =>
        if code == "" then Str(code)
        else Bool(IndexOf(code, ToJsString(key)) != -1)
  }

  /** The derived flag is truthy exactly when the raw flag is, or when the
      escape-hatch key is set and the original source holds it. */
  lemma NoPreserveStateTruthy(hotOptions: Options, originalCode: Option<string>)
    ensures Truthy(NoPreserveState(hotOptions, originalCode)) <==>
      (Truthy(Get(hotOptions, "noPreserveState")) ||
       (Truthy(Get(hotOptions, "noPreserveStateKey")) &&
        originalCode.Some? && originalCode.value != "" &&
        Contains(originalCode.value, ToJsString(Get(hotOptions, "noPreserveStateKey")))))
  {
    var key := Get(hotOptions, "noPreserveStateKey");
    if originalCode.Some? && originalCode.value != "" {
      var code, t := originalCode.value, ToJsString(key);
      if IndexOf(code, t) != -1 {
        assert HasAt(code, IndexOf(code, t), t);
      }
    }
  }

  /** With the defaults, an original source that contains "@!hmr" turns
      state preservation off, and one that does not leaves it on. */
  lemma EscapeHatchByDefault(code: string)
    requires code != ""
    ensures Truthy(NoPreserveState(DefaultHotOptions, Some(code))) <==> Contains(code, "@!hmr")
  {
    NoPreserveStateTruthy(DefaultHotOptions, Some(code));
  }

  /** The merged options with `noPreserveState` set to the derived flag: the
      object that is serialised into the generated code.  It has exactly the
      keys of the defaults and of the caller. */
  function FinalOptions(hotOptionsArg: Options, originalCode: Option<string>): (r: Options)
    ensures forall k :: k in r <==> k in DefaultHotOptions || k in hotOptionsArg
  {
    var merged := Merge(DefaultHotOptions, hotOptionsArg);
    merged["noPreserveState" := NoPreserveState(merged, originalCode)]
  }

  /** The serialised options hold every default key and every key of the
      caller; they differ from the merge only in `noPreserveState`, which
      holds the flag derived from the merge and the original code. */
  lemma FinalOptionsKeys(hotOptionsArg: Options, originalCode: Option<string>)
    ensures var r := FinalOptions(hotOptionsArg, originalCode);
      (forall k :: k in r <==> k in DefaultHotOptions || k in hotOptionsArg) &&
      (forall k :: k in r && k != "noPreserveState" ==>
         r[k] == if k in hotOptionsArg then hotOptionsArg[k] else DefaultHotOptions[k])
    ensures FinalOptions(hotOptionsArg, originalCode)["noPreserveState"] ==
      NoPreserveState(Merge(DefaultHotOptions, hotOptionsArg), originalCode)
  {
    assert "noPreserveState" in DefaultHotOptions;
  }
}
