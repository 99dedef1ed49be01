/** `renderApplyHmr` (lib/make-hot.js:71-123): the text that takes the place
    of the component's default export.  It imports the HMR runtime and the
    proxy adapter, wraps the component bound to `$2` with `applyHmr`, exports
    it again and, for CSS-only updates, injects the stylesheet at load time.
    The activation block is written over several lines in the source and
    flattened to one line, so the replacement adds no line to the module. */
module Render {
  import opened Wrappers
  import opened JsValues
  import opened Text
  import opened Json
  import opened Substitution

  /** The binding the runtime API is imported under. */
  const GlobalName := "___SVELTE_HMR_HOT_API"

  /** The replacement pattern for the captured default-export expression. */
  const Component := "$2"

  const AcceptCall := "import.meta.hot.accept();"
  /** The re-export of the component, around its `$2`. */
  const ExportOpen := "\nexport default "
  const ExportClose := ";\n"
  const ExportTail := ExportOpen + Component + ExportClose

  /** The parameters of `renderApplyHmr`: the serialised texts are given as
      they were serialised, the values that are quoted here as values. */
  datatype RenderInput = RenderInput(
    id: string,
    cssId: JsValue,
    nonCssHash: JsValue,
    injectCss: JsValue,
    compatVite: JsValue,
    options: string,
    hotApiImport: string,
    adapterImport: string,
    importAdapterName: string,
    meta: string,
    compileData: string,
    compileOptions: string)

  /** The values `parseCssId` can produce for the two quoted fields. */
  predicate Quotable(inp: RenderInput)
  {
    (inp.cssId.Undefined? || inp.cssId.Null? || inp.cssId.Str?)
    && (inp.nonCssHash.Undefined? || inp.nonCssHash.Str?)
  }

  /** The two default imports, joined with `;`. */
  function ImportsText(inp: RenderInput): string
  {
    "import * as " + GlobalName + " from '" + inp.hotApiImport + "';"
    + "import " + inp.importAdapterName + " from '" + inp.adapterImport + "'"
  }

  function MetaGuard(compatVite: JsValue): string
  {
    if Truthy(compatVite) then "" else "import.meta && "
  }

  function Accept(compatVite: JsValue): string
  {
    if Truthy(compatVite) then AcceptCall else ""
  }

  /** One line of the template block: its indentation and its text. */
  datatype Line = Line(indent: string, text: string)

  /** The first twelve lines of the template block after its opening line
      break. */
  function HeadLines(inp: RenderInput): seq<Line>
    requires Quotable(inp)
  {
    [ Line("    ", "if (" + MetaGuard(inp.compatVite) + "import.meta.hot) {"),
      Line("      ", "$2 = " + GlobalName + ".applyHmr({"),
      Line("        ", "m: " + inp.meta + ","),
      Line("        ", "id: " + QuoteValue(Str(inp.id)) + ","),
      Line("        ", "hotOptions: " + inp.options + ","),
      Line("        ", "Component: $2,"),
      Line("        ", "ProxyAdapter: " + inp.importAdapterName + ","),
      Line("        ", "compileData: " + inp.compileData + ","),
      Line("        ", "compileOptions: " + inp.compileOptions + ","),
      Line("        ", "cssId: " + QuoteValue(inp.cssId) + ","),
      Line("        ", "nonCssHash: " + QuoteValue(inp.nonCssHash) + ","),
      Line("      ", "});") ]
  }

  function TemplateLines(inp: RenderInput): seq<Line>
    requires Quotable(inp)
  {
    HeadLines(inp) + [Line("      ", Accept(inp.compatVite)), Line("    ", "}")]
  }

  function Indented(ls: seq<Line>): (r: seq<string>)
    ensures |r| == |ls| && forall i :: 0 <= i < |ls| ==> r[i] == ls[i].indent + ls[i].text
  {
    seq(|ls|, i requires 0 <= i < |ls| => ls[i].indent + ls[i].text)
  }

  /** The lines of the template block: it opens with a line break and its
      last line holds the indentation of the closing backquote. */
  function BlockLines(inp: RenderInput): seq<string>
    requires Quotable(inp)
  {
    [""] + Indented(TemplateLines(inp)) + ["  "]
  }

  /** A non-empty text with no whitespace at either end. */
  predicate Tidy(s: string)
  {
    s != [] && !IsSpace(s[0]) && !IsSpace(s[|s| - 1])
  }

  /** One line trimmed, dropped when nothing is left. */
  function Kept(line: string): seq<string>
  {
    var t := Trim(line);
    if t == [] then [] else [t]
  }

  /** Each line trimmed, the empty ones dropped. */
  function Compact(parts: seq<string>): seq<string>
  {
    if parts == [] then []
    else
      Kept(parts[0]) + Compact(parts[1..])
  }

  /** A trimmed line that is kept is tidy. */
  lemma KeptTidy(line: string)
    ensures forall i :: 0 <= i < |Kept(line)| ==> Tidy(Kept(line)[i])
  {
  }

  lemma TidyConcat(a: seq<string>, b: seq<string>)
    requires forall i :: 0 <= i < |a| ==> Tidy(a[i])
    requires forall i :: 0 <= i < |b| ==> Tidy(b[i])
    ensures forall i :: 0 <= i < |a + b| ==> Tidy((a + b)[i])
  {
  }

  /** What is kept is trimmed and not empty. */
  lemma {:induction false} CompactTidy(parts: seq<string>)
    ensures forall i :: 0 <= i < |Compact(parts)| ==> Tidy(Compact(parts)[i])
  {
    if parts != [] {
      CompactTidy(parts[1..]);
      KeptTidy(parts[0]);
      TidyConcat(Kept(parts[0]), Compact(parts[1..]));
    }
  }

  /** Trimming and dropping lines brings in no new character. */
  lemma {:induction false} CompactAvoids(parts: seq<string>, c: char)
    requires forall j :: 0 <= j < |parts| ==> c !in parts[j]
    ensures forall i :: 0 <= i < |Compact(parts)| ==> c !in Compact(parts)[i]
  {
    if parts != [] {
      CompactAvoids(parts[1..], c);
    }
  }

  /** The block split at line feeds, each piece trimmed, the empty pieces
      dropped and the rest joined by single spaces: one line made of the
      trimmed non-empty lines of `raw`, in order. */
  function Flatten(raw: string): (r: string)
    ensures '\n' !in r
  {
    var parts := Compact(Split(raw, '\n'));
    CompactAvoids(Split(raw, '\n'), '\n');
    JoinAvoids(parts, " ", '\n');
    Join(parts, " ")
  }

  /** The two ends of the stylesheet injection guard, around the quoted id. */
  const CssGuardOpen := "\nif (typeof add_css !== 'undefined' && " + "!document.getElementById("
  const CssGuardClose := ")) add_css();"

  /** The stylesheet injection guard, present only with `injectCss` and a
      CSS id. */
  function CssTail(inp: RenderInput): string
    requires Quotable(inp)
  {
    if Truthy(inp.injectCss) && Truthy(inp.cssId) then
      CssGuardOpen + QuoteValue(inp.cssId) + CssGuardClose
    else ""
  }

  /** `renderApplyHmr(...)`. */
  function RenderApplyHmr(inp: RenderInput): (r: string)
    requires Quotable(inp)
    ensures |r| > 0 && r[|r| - 1] == '\n'
  {
    ImportsText(inp) + ";" + Flatten(Join(BlockLines(inp), "\n")) + ExportTail + CssTail(inp) + "\n"
  }

  /** The rendering is the imports, one line of block, the re-export of `$2`
      and the optional stylesheet guard; the guard is there exactly when
      `injectCss` and `cssId` are truthy, and it looks the element up by the
      quoted id. */
  lemma RenderShape(inp: RenderInput)
    requires Quotable(inp)
    ensures exists block ::
      '\n' !in block && RenderApplyHmr(inp) == ImportsText(inp) + ";" + block + ExportTail + CssTail(inp) + "\n"
    ensures CssTail(inp) != "" <==> Truthy(inp.injectCss) && Truthy(inp.cssId)
    ensures CssTail(inp) != "" ==> inp.cssId.Str? && exists q ::
      Unquote(q) == Some(inp.cssId.s) && CssTail(inp) ==
        CssGuardOpen + q + CssGuardClose
  {
    var block := Flatten(Join(BlockLines(inp), "\n"));
    assert RenderApplyHmr(inp) == ImportsText(inp) + ";" + block + ExportTail + CssTail(inp) + "\n";
    if CssTail(inp) != "" {
      QuoteValueDecodes(inp.cssId);
    }
  }

  // ---------------------------------------------------------------------
  // The rendering when no interpolated text breaks a line

  function Texts(ls: seq<Line>): (r: seq<string>)
    ensures |r| == |ls| && forall i :: 0 <= i < |ls| ==> r[i] == ls[i].text
  {
    seq(|ls|, i requires 0 <= i < |ls| => ls[i].text)
  }

  /** The texts of the block that are not empty: the fragments the block is
      flattened to.  The runtime's `accept` call is one of them only in Vite
      mode. */
  function Fragments(inp: RenderInput): seq<string>
    requires Quotable(inp)
  {
    Texts(HeadLines(inp)) + (if Truthy(inp.compatVite) then [AcceptCall] else []) + ["}"]
  }

  /** The texts interpolated into the block without quoting hold no line
      break. */
  predicate SingleLine(inp: RenderInput)
  {
    '\n' !in inp.meta && '\n' !in inp.options && '\n' !in inp.importAdapterName
    && '\n' !in inp.compileData && '\n' !in inp.compileOptions
  }

  predicate Blank(s: string)
  {
    forall k :: 0 <= k < |s| ==> IsSpace(s[k])
  }

  /** A line whose indentation is blank and whose text is empty or tidy. */
  predicate Trimmable(l: Line)
  {
    Blank(l.indent) && (l.text == [] || Tidy(l.text))
  }

  function NonEmptyTexts(ls: seq<Line>): seq<string>
  {
    if ls == [] then []
    else (if ls[0].text == [] then [] else [ls[0].text]) + NonEmptyTexts(ls[1..])
  }

  lemma {:induction false} CompactIndented(ls: seq<Line>)
    requires forall i :: 0 <= i < |ls| ==> Trimmable(ls[i])
    ensures Compact(Indented(ls)) == NonEmptyTexts(ls)
  {
    if ls != [] {
      CompactIndented(ls[1..]);
      TrimIndented(ls[0].indent, ls[0].text);
      assert Indented(ls)[1..] == Indented(ls[1..]);
    }
  }

  lemma {:induction false} NonEmptyTextsConcat(a: seq<Line>, b: seq<Line>)
    ensures NonEmptyTexts(a + b) == NonEmptyTexts(a) + NonEmptyTexts(b)
  {
    if a == [] {
      assert a + b == b;
    } else {
      assert (a + b)[0] == a[0] && (a + b)[1..] == a[1..] + b;
      NonEmptyTextsConcat(a[1..], b);
      var x := if a[0].text == [] then [] else [a[0].text];
      assert x + (NonEmptyTexts(a[1..]) + NonEmptyTexts(b)) == (x + NonEmptyTexts(a[1..])) + NonEmptyTexts(b);
    }
  }

  lemma {:induction false} NonEmptyTextsAll(ls: seq<Line>)
    requires forall i :: 0 <= i < |ls| ==> ls[i].text != []
    ensures NonEmptyTexts(ls) == Texts(ls)
  {
    if ls != [] {
      NonEmptyTextsAll(ls[1..]);
      assert Texts(ls) == [ls[0].text] + Texts(ls[1..]);
    }
  }

  lemma {:induction false} CompactConcat(a: seq<string>, b: seq<string>)
    ensures Compact(a + b) == Compact(a) + Compact(b)
  {
    if a == [] {
      assert a + b == b;
    } else {
      assert (a + b)[0] == a[0] && (a + b)[1..] == a[1..] + b;
      CompactConcat(a[1..], b);
      var x := Kept(a[0]);
      assert x + (Compact(a[1..]) + Compact(b)) == (x + Compact(a[1..])) + Compact(b);
    }
  }

  /** Text between a fixed start and a fixed end is tidy when those ends
      are. */
  lemma TidyFramed(pre: string, mid: string, post: string)
    requires pre != [] && !IsSpace(pre[0])
    requires post != [] && !IsSpace(post[|post| - 1])
    ensures Tidy(pre + mid + post)
  {
    assert (pre + mid + post)[0] == pre[0];
    assert (pre + mid + post)[|pre + mid + post| - 1] == post[|post| - 1];
  }

  /** The texts of the head lines, one by one. */
  lemma HeadTexts(inp: RenderInput)
    requires Quotable(inp)
    ensures var h := HeadLines(inp);
      h[0].text == "if (" + MetaGuard(inp.compatVite) + "import.meta.hot) {" &&
      h[1].text == "$2 = " + GlobalName + ".applyHmr({" &&
      h[2].text == "m: " + inp.meta + "," &&
      h[3].text == "id: " + QuoteValue(Str(inp.id)) + "," &&
      h[4].text == "hotOptions: " + inp.options + "," &&
      h[5].text == "Component: $2," &&
      h[6].text == "ProxyAdapter: " + inp.importAdapterName + "," &&
      h[7].text == "compileData: " + inp.compileData + "," &&
      h[8].text == "compileOptions: " + inp.compileOptions + "," &&
      h[9].text == "cssId: " + QuoteValue(inp.cssId) + "," &&
      h[10].text == "nonCssHash: " + QuoteValue(inp.nonCssHash) + "," &&
      h[11].text == "});"
  {
  }

  lemma FirstTextsTidy(inp: RenderInput)
    requires Quotable(inp)
    ensures Tidy("if (" + MetaGuard(inp.compatVite) + "import.meta.hot) {")
    ensures Tidy("$2 = " + GlobalName + ".applyHmr({")
    ensures Tidy("m: " + inp.meta + ",")
    ensures Tidy("id: " + QuoteValue(Str(inp.id)) + ",")
    ensures Tidy("hotOptions: " + inp.options + ",")
    ensures Tidy("Component: $2,")
  {
    TidyFramed("if (", MetaGuard(inp.compatVite), "import.meta.hot) {");
    TidyFramed("$2 = ", GlobalName, ".applyHmr({");
    TidyFramed("m: ", inp.meta, ",");
    TidyFramed("id: ", QuoteValue(Str(inp.id)), ",");
    TidyFramed("hotOptions: ", inp.options, ",");
  }

  lemma LastTextsTidy(inp: RenderInput)
    requires Quotable(inp)
    ensures Tidy("ProxyAdapter: " + inp.importAdapterName + ",")
    ensures Tidy("compileData: " + inp.compileData + ",")
    ensures Tidy("compileOptions: " + inp.compileOptions + ",")
    ensures Tidy("cssId: " + QuoteValue(inp.cssId) + ",")
    ensures Tidy("nonCssHash: " + QuoteValue(inp.nonCssHash) + ",")
    ensures Tidy("});")
  {
    TidyFramed("ProxyAdapter: ", inp.importAdapterName, ",");
    TidyFramed("compileData: ", inp.compileData, ",");
    TidyFramed("compileOptions: ", inp.compileOptions, ",");
    TidyFramed("cssId: ", QuoteValue(inp.cssId), ",");
    TidyFramed("nonCssHash: ", QuoteValue(inp.nonCssHash), ",");
  }

  /** Every template line trims to its text, and the head lines are not
      empty. */
  lemma TemplateTrimmable(inp: RenderInput)
    requires Quotable(inp)
    ensures forall i :: 0 <= i < |TemplateLines(inp)| ==> Trimmable(TemplateLines(inp)[i])
    ensures forall i :: 0 <= i < |HeadLines(inp)| ==> HeadLines(inp)[i].text != []
  {
    HeadTexts(inp);
    FirstTextsTidy(inp);
    LastTextsTidy(inp);
    assert Blank("    ") && Blank("      ") && Blank("        ");
    assert Tidy(AcceptCall) && Tidy("}");
    var h, t := HeadLines(inp), TemplateLines(inp);
    assert forall i :: 0 <= i < |h| ==> Trimmable(h[i]);
    assert forall i :: 0 <= i < |h| ==> t[i] == h[i];
  }

  lemma FirstTextsSingleLine(inp: RenderInput)
    requires Quotable(inp) && SingleLine(inp)
    ensures '\n' !in "if (" + MetaGuard(inp.compatVite) + "import.meta.hot) {"
    ensures '\n' !in "$2 = " + GlobalName + ".applyHmr({"
    ensures '\n' !in "m: " + inp.meta + ","
    ensures '\n' !in "id: " + QuoteValue(Str(inp.id)) + ","
    ensures '\n' !in "hotOptions: " + inp.options + ","
    ensures '\n' !in "Component: $2,"
  {
  }

  lemma LastTextsSingleLine(inp: RenderInput)
    requires Quotable(inp) && SingleLine(inp)
    ensures '\n' !in "ProxyAdapter: " + inp.importAdapterName + ","
    ensures '\n' !in "compileData: " + inp.compileData + ","
    ensures '\n' !in "compileOptions: " + inp.compileOptions + ","
    ensures '\n' !in "cssId: " + QuoteValue(inp.cssId) + ","
    ensures '\n' !in "nonCssHash: " + QuoteValue(inp.nonCssHash) + ","
    ensures '\n' !in "});"
  {
  }

  /** The head texts hold no line break when the interpolated texts do
      not; the quoted ones never do. */
  lemma HeadSingleLine(inp: RenderInput)
    requires Quotable(inp) && SingleLine(inp)
    ensures forall i :: 0 <= i < |HeadLines(inp)| ==> '\n' !in HeadLines(inp)[i].text
  {
    HeadTexts(inp);
    FirstTextsSingleLine(inp);
    LastTextsSingleLine(inp);
  }

  /** No template line breaks when no interpolated text does. */
  lemma TemplateSingleLine(inp: RenderInput)
    requires Quotable(inp) && SingleLine(inp)
    ensures forall i :: 0 <= i < |TemplateLines(inp)| ==> Unbroken(TemplateLines(inp)[i])
  {
    HeadSingleLine(inp);
    var h, t := HeadLines(inp), TemplateLines(inp);
    assert forall i :: 0 <= i < |h| ==> t[i] == h[i];
  }

  /** Neither the indentation nor the text of a line breaks it. */
  predicate Unbroken(l: Line)
  {
    '\n' !in l.indent && '\n' !in l.text
  }

  /** A blank line is dropped. */
  lemma CompactBlank(line: string)
    requires Blank(line)
    ensures Compact([line]) == []
  {
    TrimIndented(line, "");
    assert line + "" == line;
    assert [line][1..] == [];
  }

  /** Splitting a block with unbroken lines at its line breaks gives the
      lines back. */
  lemma SplitBlock(ls: seq<Line>, last: string)
    requires forall i :: 0 <= i < |ls| ==> Unbroken(ls[i])
    requires '\n' !in last
    ensures Split(Join([""] + Indented(ls) + [last], "\n"), '\n') == [""] + Indented(ls) + [last]
  {
    var body := Indented(ls);
    var all := [""] + body + [last];
    assert forall i :: 0 <= i < |body| ==> '\n' !in body[i];
    assert forall i :: 0 <= i < |all| ==> '\n' !in all[i] by {
      assert forall i :: 1 <= i < |all| - 1 ==> all[i] == body[i - 1];
    }
    SplitJoin(all, '\n');
  }

  /** Trimming the lines of such a block and dropping the empty ones keeps
      the non-empty texts. */
  lemma CompactBlock(ls: seq<Line>, last: string)
    requires forall i :: 0 <= i < |ls| ==> Trimmable(ls[i])
    requires Blank(last)
    ensures Compact([""] + Indented(ls) + [last]) == NonEmptyTexts(ls)
  {
    var body := Indented(ls);
    CompactConcat([""] + body, [last]);
    CompactConcat([""], body);
    CompactIndented(ls);
    CompactBlank(last);
    CompactBlank("");
    assert [] + NonEmptyTexts(ls) + [] == NonEmptyTexts(ls);
  }

  /** Flattening a block written as a line break, indented lines and a last
      blank line keeps the non-empty texts, joined by single spaces. */
  lemma FlattenLines(ls: seq<Line>, last: string)
    requires forall i :: 0 <= i < |ls| ==> Trimmable(ls[i]) && Unbroken(ls[i])
    requires Blank(last) && '\n' !in last
    ensures Flatten(Join([""] + Indented(ls) + [last], "\n")) == Join(NonEmptyTexts(ls), " ")
  {
    SplitBlock(ls, last);
    CompactBlock(ls, last);
  }

  /** The non-empty texts of the template are the fragments. */
  lemma TemplateFragments(inp: RenderInput)
    requires Quotable(inp)
    ensures NonEmptyTexts(TemplateLines(inp)) == Fragments(inp)
  {
    TemplateTrimmable(inp);
    var tail := [Line("      ", Accept(inp.compatVite)), Line("    ", "}")];
    NonEmptyTextsConcat(HeadLines(inp), tail);
    NonEmptyTextsAll(HeadLines(inp));
    assert tail[1..] == [Line("    ", "}")] && tail[1..][1..] == [];
    assert NonEmptyTexts(tail[1..]) == ["}"];
  }

  /** With no line break in the interpolated texts, the block is its
      non-empty texts, trimmed, joined by single spaces: the indentation and
      the blank lines vanish, `import.meta.hot.accept();` stays only in Vite
      mode and the `import.meta && ` guard only outside it. */
  lemma FlattenBlock(inp: RenderInput)
    requires Quotable(inp) && SingleLine(inp)
    ensures Flatten(Join(BlockLines(inp), "\n")) == Join(Fragments(inp), " ")
  {
    TemplateSingleLine(inp);
    TemplateTrimmable(inp);
    assert Blank("  ");
    FlattenLines(TemplateLines(inp), "  ");
    TemplateFragments(inp);
  }

  // ---------------------------------------------------------------------
  // Dollar signs in the rendering

  /** No interpolated text holds a dollar sign. */
  predicate DollarFree(inp: RenderInput)
  {
    '$' !in inp.id && '$' !in inp.options && '$' !in inp.hotApiImport && '$' !in inp.adapterImport
    && '$' !in inp.importAdapterName && '$' !in inp.meta && '$' !in inp.compileData
    && '$' !in inp.compileOptions
    && (inp.cssId.Str? ==> '$' !in inp.cssId.s) && (inp.nonCssHash.Str? ==> '$' !in inp.nonCssHash.s)
  }

  /** Plain text around a plain middle holds no pattern at all. */
  lemma PlainFramed(pre: string, mid: string, post: string)
    requires '$' !in pre && '$' !in mid && '$' !in post
    ensures ComponentOnly(pre + mid + post)
  {
    assert '$' !in pre + mid + post;
  }

  /** One `$2` between plain texts. */
  lemma ComponentBetween(pre: string, post: string)
    requires '$' !in pre && '$' !in post
    ensures ComponentOnly(pre + "$2" + post)
  {
  }

  lemma ComponentLines(inp: RenderInput)
    ensures ComponentOnly("$2 = " + GlobalName + ".applyHmr({")
    ensures ComponentOnly("Component: $2,")
  {
    ComponentBetween("", " = " + GlobalName + ".applyHmr({");
    assert "" + "$2" + (" = " + GlobalName + ".applyHmr({") == "$2 = " + GlobalName + ".applyHmr({";
    ComponentBetween("Component: ", ",");
    assert "Component: " + "$2" + "," == "Component: $2,";
  }

  lemma FirstTextsComponentOnly(inp: RenderInput)
    requires Quotable(inp) && DollarFree(inp)
    ensures ComponentOnly("if (" + MetaGuard(inp.compatVite) + "import.meta.hot) {")
    ensures ComponentOnly("m: " + inp.meta + ",")
    ensures ComponentOnly("id: " + QuoteValue(Str(inp.id)) + ",")
    ensures ComponentOnly("hotOptions: " + inp.options + ",")
  {
    QuoteValueNoDollar(Str(inp.id));
    PlainFramed("if (", MetaGuard(inp.compatVite), "import.meta.hot) {");
    PlainFramed("m: ", inp.meta, ",");
    PlainFramed("id: ", QuoteValue(Str(inp.id)), ",");
    PlainFramed("hotOptions: ", inp.options, ",");
  }

  lemma LastTextsComponentOnly(inp: RenderInput)
    requires Quotable(inp) && DollarFree(inp)
    ensures ComponentOnly("ProxyAdapter: " + inp.importAdapterName + ",")
    ensures ComponentOnly("compileData: " + inp.compileData + ",")
    ensures ComponentOnly("compileOptions: " + inp.compileOptions + ",")
    ensures ComponentOnly("cssId: " + QuoteValue(inp.cssId) + ",")
    ensures ComponentOnly("nonCssHash: " + QuoteValue(inp.nonCssHash) + ",")
  {
    QuoteValueNoDollar(inp.cssId);
    QuoteValueNoDollar(inp.nonCssHash);
    PlainFramed("ProxyAdapter: ", inp.importAdapterName, ",");
    PlainFramed("compileData: ", inp.compileData, ",");
    PlainFramed("compileOptions: ", inp.compileOptions, ",");
    PlainFramed("cssId: ", QuoteValue(inp.cssId), ",");
    PlainFramed("nonCssHash: ", QuoteValue(inp.nonCssHash), ",");
  }

  /** Every fragment's only dollar signs are those of `$2`, and so are
      those of the fragments joined. */
  lemma FragmentsComponentOnly(inp: RenderInput)
    requires Quotable(inp) && DollarFree(inp)
    ensures ComponentOnly(Join(Fragments(inp), " "))
  {
    HeadTexts(inp);
    ComponentLines(inp);
    FirstTextsComponentOnly(inp);
    LastTextsComponentOnly(inp);
    ComponentOnlyPlain("});");
    ComponentOnlyPlain(AcceptCall);
    ComponentOnlyPlain("}");
    var h, f := HeadLines(inp), Fragments(inp);
    assert forall i :: 0 <= i < |h| ==> ComponentOnly(h[i].text);
    assert forall i :: 0 <= i < |f| ==> ComponentOnly(f[i]);
    JoinComponentOnly(f, " ");
  }

  lemma {:induction false} JoinComponentOnly(parts: seq<string>, sep: string)
    requires '$' !in sep
    requires forall i :: 0 <= i < |parts| ==> ComponentOnly(parts[i])
    ensures ComponentOnly(Join(parts, sep))
    decreases |parts|
  {
    if |parts| > 1 {
      JoinComponentOnly(parts[1..], sep);
      ComponentOnlyPlain(sep);
      ComponentOnlyConcat(parts[0], sep);
      ComponentOnlyConcat(parts[0] + sep, Join(parts[1..], sep));
    }
  }

  lemma BlockComponentOnly(inp: RenderInput)
    requires Quotable(inp) && SingleLine(inp) && DollarFree(inp)
    ensures ComponentOnly(Flatten(Join(BlockLines(inp), "\n")))
  {
    FlattenBlock(inp);
    FragmentsComponentOnly(inp);
  }

  lemma ImportsPlain(inp: RenderInput)
    requires DollarFree(inp)
    ensures '$' !in ImportsText(inp) + ";"
  {
  }

  lemma CssTailPlain(inp: RenderInput)
    requires Quotable(inp) && DollarFree(inp)
    ensures '$' !in CssTail(inp)
  {
    QuoteValueNoDollar(inp.cssId);
    GuardPlain();
  }

  lemma GuardPlain()
    ensures '$' !in CssGuardOpen && '$' !in CssGuardClose
  {
    assert '$' !in "\nif (typeof add_css !== 'undefined' && " && '$' !in "!document.getElementById(";
  }

  lemma GlueComponentOnly(a: string, b: string, c: string, d: string, e: string)
    requires ComponentOnly(a) && ComponentOnly(b) && ComponentOnly(c)
    requires ComponentOnly(d) && ComponentOnly(e)
    ensures ComponentOnly(a + b + c + d + e)
  {
    ComponentOnlyConcat(a, b);
    ComponentOnlyConcat(a + b, c);
    ComponentOnlyConcat(a + b + c, d);
    ComponentOnlyConcat(a + b + c + d, e);
  }

  /** With no dollar sign and no line break in the interpolated texts, the
      only replacement patterns of the rendering are its three `$2`s. */
  lemma RenderComponentOnly(inp: RenderInput)
    requires Quotable(inp) && SingleLine(inp) && DollarFree(inp)
    ensures ComponentOnly(RenderApplyHmr(inp))
  {
    BlockComponentOnly(inp);
    ExportTailReplaced("");
    ImportsPlain(inp);
    CssTailPlain(inp);
    ComponentOnlyPlain(ImportsText(inp) + ";");
    ComponentOnlyPlain(CssTail(inp));
    ComponentOnlyPlain("\n");
    GlueComponentOnly(ImportsText(inp) + ";", Flatten(Join(BlockLines(inp), "\n")), ExportTail, CssTail(inp), "\n");
  }

  lemma ReplaceGlued(a: string, b: string, c: string, d: string, e: string, x: string)
    requires ComponentOnly(a) && ComponentOnly(b) && ComponentOnly(c) && ComponentOnly(d)
    ensures ReplaceComponent(a + b + c + d + e, x) ==
      ReplaceComponent(a, x) + ReplaceComponent(b, x) + ReplaceComponent(c, x)
      + ReplaceComponent(d, x) + ReplaceComponent(e, x)
  {
    ComponentOnlyConcat(a, b);
    ComponentOnlyConcat(a + b, c);
    ComponentOnlyConcat(a + b + c, d);
    ReplaceConcat(a + b + c + d, e, x);
    ReplaceConcat(a + b + c, d, x);
    ReplaceConcat(a + b, c, x);
    ReplaceConcat(a, b, x);
  }

  lemma ExportTailReplaced(x: string)
    ensures ComponentOnly(ExportTail)
    ensures ReplaceComponent(ExportTail, x) == ExportOpen + x + ExportClose
  {
    assert '$' !in ExportOpen && '$' !in ExportClose;
    ComponentBetween(ExportOpen, ExportClose);
    ReplaceBetween(ExportOpen, ExportClose, x);
  }

  /** The rendering's shape with its `$2`s replaced, for any plain imports,
      block and stylesheet guard. */
  lemma ReplaceRendering(head: string, block: string, tail: string, css: string, nl: string, x: string, t: string)
    requires '$' !in head && ComponentOnly(block) && '$' !in css && '$' !in nl
    requires ComponentOnly(tail) && ReplaceComponent(tail, x) == t
    ensures ReplaceComponent(head + block + tail + css + nl, x) ==
      head + ReplaceComponent(block, x) + t + css + nl
  {
    ComponentOnlyPlain(head);
    ComponentOnlyPlain(css);
    ReplaceGlued(head, block, tail, css, nl, x);
    ReplacePlain(head, x);
    ReplacePlain(css, x);
    ReplacePlain(nl, x);
  }

  /** Once `$2` stands for the expression `x`, the rendering re-exports `x`:
      the imports are kept, the block has its `$2`s replaced, and the
      stylesheet guard follows unchanged. */
  lemma RenderReplaced(inp: RenderInput, x: string)
    requires Quotable(inp) && SingleLine(inp) && DollarFree(inp)
    ensures ReplaceComponent(RenderApplyHmr(inp), x) ==
      ImportsText(inp) + ";" + ReplaceComponent(Flatten(Join(BlockLines(inp), "\n")), x)
      + (ExportOpen + x + ExportClose) + CssTail(inp) + "\n"
  {
    BlockComponentOnly(inp);
    ImportsPlain(inp);
    CssTailPlain(inp);
    ExportTailReplaced(x);
    ReplaceRendering(ImportsText(inp) + ";", Flatten(Join(BlockLines(inp), "\n")), ExportTail, CssTail(inp), "\n",
      x, ExportOpen + x + ExportClose);
  }
}
