/** `createMakeHot` and the `makeHot` it returns (lib/make-hot.js:160-228):
    merge the options, derive the state-preservation flag, resolve the
    import paths, read the CSS id, render the replacement and splice it in
    place of the component's default export. */
module MakeHot {
  import opened Wrappers
  import opened JsValues
  import opened Text
  import opened HotOptions
  import opened ImportPaths
  import opened CssId
  import opened Accessors
  import opened Render
  import opened Substitution
  import opened Splice

  /** The text `meta` defaults to. */
  const DefaultMeta := "import.meta"

  /** What the factory captures: `meta` (by default `DefaultMeta`), the
      optional `hotApi` and `adapter` overrides, and the absolute runtime
      directory `path.resolve` would give. */
  datatype Factory = Factory(meta: string, hotApi: Option<string>, adapter: Option<string>, runtimeDir: string)

  /** `JSON.stringify` of a boolean. */
  function BoolJson(b: bool): string
  {
    if b then "true" else "false"
  }

  /** `JSON.stringify` of an object whose members are already serialised
      as `"key":value`. */
  function ObjectJson(members: seq<string>): (r: string)
    ensures |r| >= 2 && r[0] == '{' && r[|r| - 1] == '}'
  {
    "{" + Join(members, ",") + "}"
  }

  function VarsMember(varsJson: string): string
  {
    "\"vars\":" + varsJson
  }

  function AccessorsMember(b: bool): string
  {
    "\"accessors\":" + BoolJson(b)
  }

  /** The members of the compile data object (the compiled `vars` and the
      accessor verdict) that survive serialisation: a member whose value is
      `undefined` is left out; `vars` arrives serialised. */
  function CompileMembers(c: Compiled): seq<string>
  {
    var acc := AccessorsValue(c);
    (if c.varsJson.Some? then [VarsMember(c.varsJson.value)] else [])
    + (if acc.Bool? then [AccessorsMember(acc.b)] else [])
  }

  /** The serialised compile data: `null` without compiled output, otherwise
      the object of its members. */
  function CompileData(compiled: Option<Compiled>): (r: string)
    ensures compiled.None? ==> r == "null"
    ensures compiled.Some? ==> |r| >= 2 && r[0] == '{' && r[|r| - 1] == '}'
  {
    if compiled.None? then "null" else ObjectJson(CompileMembers(compiled.value))
  }

  lemma TwoMembers(a: string, b: string)
    ensures var r := ObjectJson([a, b]);
      HasAt(r, 0, "{" + a) && HasAt(r, |r| - |b + "}"|, b + "}")
  {
    assert [a, b][1..] == [b];
    assert Join([a, b], ",") == a + "," + b;
    var r := ObjectJson([a, b]);
    assert r == "{" + a + "," + b + "}";
    assert r == ("{" + a) + ("," + b + "}");
    assert r == ("{" + a + ",") + (b + "}");
  }

  lemma OneMember(a: string)
    ensures var r := ObjectJson([a]);
      HasAt(r, 0, "{" + a) && HasAt(r, |r| - |a + "}"|, a + "}")
  {
    var r := ObjectJson([a]);
    assert r == "{" + a + "}";
    assert r == "{" + (a + "}");
  }

  /** The serialised compile data lists `vars` first when there is one and
      `accessors` last when the template tree is there, with the walk's
      verdict as its value; with neither it is the empty object. */
  lemma CompileDataMembers(c: Compiled)
    ensures c.varsJson.None? && AccessorsValue(c) == Undefined ==> CompileData(Some(c)) == "{}"
    ensures c.varsJson.Some? ==> HasAt(CompileData(Some(c)), 0, "{" + VarsMember(c.varsJson.value))
    ensures AccessorsValue(c).Bool? ==>
      var member := AccessorsMember(AccessorsValue(c).b) + "}";
      var r := CompileData(Some(c));
      HasAt(r, |r| - |member|, member)
  {
    var acc := AccessorsValue(c);
    var ms := CompileMembers(c);
    if c.varsJson.Some? && acc.Bool? {
      assert ms == [VarsMember(c.varsJson.value), AccessorsMember(acc.b)];
      TwoMembers(VarsMember(c.varsJson.value), AccessorsMember(acc.b));
    } else if c.varsJson.Some? {
      assert ms == [VarsMember(c.varsJson.value)];
      OneMember(VarsMember(c.varsJson.value));
    } else if acc.Bool? {
      assert ms == [AccessorsMember(acc.b)];
      OneMember(AccessorsMember(acc.b));
    } else {
      assert ms == [];
    }
  }

  /** The arguments `renderApplyHmr` receives from `makeHot`.  `stringify`
      is `JSON.stringify` on the options object and `compileOptionsJson` is
      the compile options already serialised. */
  function RenderArgs(f: Factory, id: string, compiledCode: string, hotOptionsArg: Options,
                      compiled: Option<Compiled>, originalCode: Option<string>,
                      stringify: Options -> string, compileOptionsJson: string): (inp: RenderInput)
    ensures Quotable(inp)
  {
    var hotOptions := Merge(DefaultHotOptions, hotOptionsArg);
    var css := ParseCssId(compiledCode, Get(hotOptions, "injectCss"));
    RenderInput(
      id,
      css.cssId,
      css.nonCssHash,
      Get(hotOptions, "injectCss"),
      Get(hotOptions, "compatVite"),
      stringify(FinalOptions(hotOptionsArg, originalCode)),
      ResolveHotApiImport(hotOptions, f.hotApi, f.runtimeDir),
      AdapterImport(hotOptions, f.adapter, f.runtimeDir),
      ToJsString(Get(hotOptions, "importAdapterName")),
      f.meta,
      CompileData(compiled),
      compileOptionsJson)
  }

  /** `makeHot(id, compiledCode, hotOptionsArg, compiled, originalCode,
      compileOptions)`: the compiled code with its first default export
      replaced by the rendering; without one, the code as it was.  The text
      before and after the replaced export is kept verbatim. */
  function MakeHot(f: Factory, id: string, compiledCode: string, hotOptionsArg: Options,
                   compiled: Option<Compiled>, originalCode: Option<string>,
                   stringify: Options -> string, compileOptionsJson: string): (r: string)
    ensures FindExport(compiledCode).None? ==> r == compiledCode
    ensures FindExport(compiledCode).Some? ==> var m := FindExport(compiledCode).value;
      |r| >= m.start + (|compiledCode| - m.semicolon - 1)
      && r[..m.start] == compiledCode[..m.start]
      && r[|r| - (|compiledCode| - m.semicolon - 1)..] == compiledCode[m.semicolon + 1..]
  {
    var inp := RenderArgs(f, id, compiledCode, hotOptionsArg, compiled, originalCode, stringify, compileOptionsJson);
    ReplaceExport(compiledCode, RenderApplyHmr(inp))
  }

  /** When no interpolated text holds a dollar sign or a line break, the
      result is the code before the export, the imports, the block with
      `$2` read as the exported expression, `export default` of that
      expression, the optional stylesheet guard, and the code after the
      export. */
  lemma MakeHotSplices(f: Factory, id: string, compiledCode: string, hotOptionsArg: Options,
                       compiled: Option<Compiled>, originalCode: Option<string>,
                       stringify: Options -> string, compileOptionsJson: string)
    requires FindExport(compiledCode).Some?
    requires var inp := RenderArgs(f, id, compiledCode, hotOptionsArg, compiled, originalCode, stringify, compileOptionsJson);
      SingleLine(inp) && DollarFree(inp)
    ensures var inp := RenderArgs(f, id, compiledCode, hotOptionsArg, compiled, originalCode, stringify, compileOptionsJson);
      var m := FindExport(compiledCode).value;
      var x := compiledCode[m.exprStart..m.semicolon];
      MakeHot(f, id, compiledCode, hotOptionsArg, compiled, originalCode, stringify, compileOptionsJson) ==
        compiledCode[..m.start]
        + (ImportsText(inp) + ";" + ReplaceComponent(Flatten(Join(BlockLines(inp), "\n")), x)
           + (ExportOpen + x + ExportClose) + CssTail(inp) + "\n")
        + compiledCode[m.semicolon + 1..]
  {
    var inp := RenderArgs(f, id, compiledCode, hotOptionsArg, compiled, originalCode, stringify, compileOptionsJson);
    var m := FindExport(compiledCode).value;
    var x := compiledCode[m.exprStart..m.semicolon];
    RenderComponentOnly(inp);
    SpliceComponent(compiledCode, RenderApplyHmr(inp));
    RenderReplaced(inp, x);
  }

  /** The CSS fields of the rendering come from `parseCssId` run with the
      merged `injectCss`: without an `add_css` function both are
      `undefined`, and the stylesheet guard is emitted exactly when
      `injectCss` and the id are truthy. */
  lemma MakeHotCss(f: Factory, id: string, compiledCode: string, hotOptionsArg: Options,
                   compiled: Option<Compiled>, originalCode: Option<string>,
                   stringify: Options -> string, compileOptionsJson: string)
    ensures var inp := RenderArgs(f, id, compiledCode, hotOptionsArg, compiled, originalCode, stringify, compileOptionsJson);
      var injectCss := Get(Merge(DefaultHotOptions, hotOptionsArg), "injectCss");
      (FindAddCss(compiledCode).None? ==> inp.cssId == Undefined && inp.nonCssHash == Undefined)
      && (CssTail(inp) != "" <==> Truthy(injectCss) && Truthy(inp.cssId))
      && (inp.nonCssHash.Str? ==> Truthy(injectCss))
  {
    var inp := RenderArgs(f, id, compiledCode, hotOptionsArg, compiled, originalCode, stringify, compileOptionsJson);
    RenderShape(inp);
  }
}
