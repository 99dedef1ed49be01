/** The module specifiers the generated code imports (lib/make-hot.js:41-69,
    207-209).  The absolute runtime directory depends on where the package
    is installed, so it is the parameter `runtimeDir`. */
module ImportPaths {
  import opened Wrappers
  import opened JsValues
  import opened HotOptions

  const RelativeBase := "svelte-hmr/runtime/"
  const DefaultHotApi := "hot-api-esm.js"
  const NativeAdapter := "svelte-native/proxy-adapter-native.js"
  const DomAdapter := "proxy-adapter-dom.js"

  /** Every slash or backslash of the path replaced by a slash: the length
      is kept and no backslash is left. */
  function Posixify(file: string): (r: string)
    ensures |r| == |file|
    ensures '\\' !in r
  {
    seq(|file|, i requires 0 <= i < |file| => if file[i] == '\\' then '/' else file[i])
  }

  /** A posixified path holds no backslash, has the length of the path, and
      posixifying it again changes nothing. */
  lemma PosixifyNormalises(file: string)
    ensures '\\' !in Posixify(file) && |Posixify(file)| == |file|
    ensures Posixify(Posixify(file)) == Posixify(file)
  {
  }

  /** A backslash becomes a slash; with `PosixifyConcat` and `PosixifyFixes`
      this fixes the result for every path. */
  lemma PosixifyBackslash(a: string, b: string)
    ensures Posixify(a + "\\" + b) == Posixify(a) + "/" + Posixify(b)
  {
    PosixifyConcat(a + "\\", b);
    PosixifyConcat(a, "\\");
  }

  /** Posixifying works piece by piece. */
  lemma PosixifyConcat(a: string, b: string)
    ensures Posixify(a + b) == Posixify(a) + Posixify(b)
  {
  }

  /** Posixifying leaves backslash-free text alone. */
  lemma PosixifyFixes(a: string)
    requires '\\' !in a
    ensures Posixify(a) == a
  {
  }

  /** None of the fixed file names holds a backslash. */
  lemma FixedNamesArePosix()
    ensures Posixify(RelativeBase) == RelativeBase
    ensures Posixify(DefaultHotApi) == DefaultHotApi
    ensures Posixify(NativeAdapter) == NativeAdapter
    ensures Posixify(DomAdapter) == DomAdapter
  {
    PosixifyFixes(RelativeBase);
    PosixifyFixes(DefaultHotApi);
    PosixifyFixes(NativeAdapter);
    PosixifyFixes(DomAdapter);
  }

  /** `applyAbsoluteImports`: the target file under the runtime directory
      when `absoluteImports` is truthy, under the package-relative base
      otherwise. */
  function ApplyAbsoluteImports(absoluteImports: JsValue, runtimeDir: string, target: string): (r: string)
    ensures |r| >= |target| && r[|r| - |target|..] == target
    ensures !Truthy(absoluteImports) ==>
      |r| == |RelativeBase| + |target| && r[..|RelativeBase|] == RelativeBase
    ensures Truthy(absoluteImports) ==>
      |r| == |runtimeDir| + 1 + |target| && r[..|runtimeDir| + 1] == runtimeDir + "/"
  {
    (if Truthy(absoluteImports) then runtimeDir + "/" else RelativeBase) + target
  }

  /** `resolveAdapterImport`: the native or the DOM adapter file under the
      chosen base, posixified. */
  function ResolveAdapterImport(hotOptions: Options, runtimeDir: string): (r: string)
    ensures '\\' !in r
  {
    var file := if Truthy(Get(hotOptions, "native")) then NativeAdapter else DomAdapter;
    Posixify(ApplyAbsoluteImports(Get(hotOptions, "absoluteImports"), runtimeDir, file))
  }

  /** `resolveHotApiImport`: the API override when it is a non-empty string,
      otherwise the default API file under the chosen base, posixified. */
  function ResolveHotApiImport(hotOptions: Options, hotApiOpt: Option<string>, runtimeDir: string): (r: string)
    ensures '\\' !in r
  {
    Posixify(if hotApiOpt.Some? && hotApiOpt.value != "" then hotApiOpt.value
             else ApplyAbsoluteImports(Get(hotOptions, "absoluteImports"), runtimeDir, DefaultHotApi))
  }

  /** The adapter override when it is a non-empty string, verbatim (it is
      not posixified), otherwise the resolved adapter path. */
  function AdapterImport(hotOptions: Options, adapter: Option<string>, runtimeDir: string): (r: string)
    ensures !(adapter.Some? && adapter.value != "") ==> '\\' !in r
  {
    if adapter.Some? && adapter.value != "" then adapter.value
    else ResolveAdapterImport(hotOptions, runtimeDir)
  }

  /** The base the default paths start from. */
  function Base(hotOptions: Options, runtimeDir: string): string
  {
    if Truthy(Get(hotOptions, "absoluteImports")) then Posixify(runtimeDir + "/") else RelativeBase
  }

  /** The adapter path: an override verbatim; otherwise the base followed by
      the native or the DOM adapter file. */
  lemma AdapterImportChoice(hotOptions: Options, adapter: Option<string>, runtimeDir: string)
    ensures adapter.Some? && adapter.value != "" ==>
      AdapterImport(hotOptions, adapter, runtimeDir) == adapter.value
    ensures !(adapter.Some? && adapter.value != "") ==>
      AdapterImport(hotOptions, adapter, runtimeDir) ==
        Base(hotOptions, runtimeDir) + (if Truthy(Get(hotOptions, "native")) then NativeAdapter else DomAdapter)
  {
    var file := if Truthy(Get(hotOptions, "native")) then NativeAdapter else DomAdapter;
    var base := if Truthy(Get(hotOptions, "absoluteImports")) then runtimeDir + "/" else RelativeBase;
    PosixifyConcat(base, file);
    FixedNamesArePosix();
  }

  /** The runtime API path: an override posixified; otherwise the base
      followed by `hot-api-esm.js`.  It never holds a backslash. */
  lemma HotApiImportChoice(hotOptions: Options, hotApiOpt: Option<string>, runtimeDir: string)
    ensures hotApiOpt.Some? && hotApiOpt.value != "" ==>
      ResolveHotApiImport(hotOptions, hotApiOpt, runtimeDir) == Posixify(hotApiOpt.value)
    ensures !(hotApiOpt.Some? && hotApiOpt.value != "") ==>
      ResolveHotApiImport(hotOptions, hotApiOpt, runtimeDir) == Base(hotOptions, runtimeDir) + DefaultHotApi
    ensures '\\' !in ResolveHotApiImport(hotOptions, hotApiOpt, runtimeDir)
  {
    var base := if Truthy(Get(hotOptions, "absoluteImports")) then runtimeDir + "/" else RelativeBase;
    PosixifyConcat(base, DefaultHotApi);
    FixedNamesArePosix();
    if hotApiOpt.Some? && hotApiOpt.value != "" {
      PosixifyNormalises(hotApiOpt.value);
    } else {
      PosixifyNormalises(base + DefaultHotApi);
    }
  }

  /** With `absoluteImports` falsy and no overrides both paths are the
      package-relative specifiers of the runtime. */
  lemma RelativeImports(hotOptions: Options, runtimeDir: string)
    requires !Truthy(Get(hotOptions, "absoluteImports"))
    ensures ResolveHotApiImport(hotOptions, None, runtimeDir) == RelativeBase + DefaultHotApi
    ensures AdapterImport(hotOptions, None, runtimeDir) ==
      RelativeBase + if Truthy(Get(hotOptions, "native")) then NativeAdapter else DomAdapter
  {
    HotApiImportChoice(hotOptions, None, runtimeDir);
    AdapterImportChoice(hotOptions, None, runtimeDir);
  }
}
