/** The splice of lib/make-hot.js:227: the compiled code's default export,
    with an optional line feed before it, is replaced by the rendering.  The
    regular expression has no `g` flag, so only the leftmost match is
    replaced.
    Group 1 is the whole match, group 2 the exported expression; the
    replacement text goes through the pattern expansion of `Substitution`. */
module Splice {
  import opened Wrappers
  import opened Text
  import opened Substitution

  const ExportKeyword := "export default "

  /** The keyword and the exported expression read from `q`: the keyword, then everything
      up to the first semicolon after it; yields that semicolon's index. */
  function ExportBodyAt(code: string, q: nat): (r: Option<nat>)
    ensures r.Some? <==>
      (HasAt(code, q, ExportKeyword) && exists k: nat :: q + |ExportKeyword| <= k < |code| && code[k] == ';')
    ensures r.Some? ==> q + |ExportKeyword| <= r.value < |code| && code[r.value] == ';'
    ensures r.Some? ==> forall k :: q + |ExportKeyword| <= k < r.value ==> code[k] != ';'
  {
    if HasAt(code, q, ExportKeyword) then
      var semi: nat -> bool := (k: nat) => k < |code| && code[k] == ';';
      var f := FirstWhere(semi, q + |ExportKeyword|, |code|);
      assert forall k: nat :: semi(k) == (k < |code| && code[k] == ';');
      if f.None? then None else Some(f.value)
    else None
  }

  /** A match: where it starts, where the exported expression starts, and
      the index of the closing semicolon (the match ends just after it). */
  datatype ExportMatch = ExportMatch(start: nat, exprStart: nat, semicolon: nat)

  /** The whole pattern tried at `p`: the optional line feed is taken when
      it is there and the rest matches after it, and left out otherwise. */
  function ExportMatchAt(code: string, p: nat): (r: Option<ExportMatch>)
    ensures r.Some? <==>
      ((p < |code| && code[p] == '\n' && ExportBodyAt(code, p + 1).Some?) || ExportBodyAt(code, p).Some?)
    ensures r.Some? ==> r.value.start == p && r.value.exprStart <= r.value.semicolon < |code|
    ensures r.Some? && p < |code| && code[p] == '\n' && ExportBodyAt(code, p + 1).Some? ==>
      r.value.exprStart == p + 1 + |ExportKeyword| && ExportBodyAt(code, p + 1) == Some(r.value.semicolon)
    ensures r.Some? && !(p < |code| && code[p] == '\n' && ExportBodyAt(code, p + 1).Some?) ==>
      r.value.exprStart == p + |ExportKeyword| && ExportBodyAt(code, p) == Some(r.value.semicolon)
  {
    if p < |code| && code[p] == '\n' && ExportBodyAt(code, p + 1).Some? then
      Some(ExportMatch(p, p + 1 + |ExportKeyword|, ExportBodyAt(code, p + 1).value))
    else if ExportBodyAt(code, p).Some? then
      Some(ExportMatch(p, p + |ExportKeyword|, ExportBodyAt(code, p).value))
    else None
  }

  /** The match `replace` acts on: the one with the leftmost start. */
  function FindExport(code: string): (r: Option<ExportMatch>)
    ensures r.Some? ==> ExportMatchAt(code, r.value.start) == r
    ensures r.Some? ==> forall p: nat :: p < r.value.start ==> ExportMatchAt(code, p).None?
    ensures r.None? ==> forall p: nat :: ExportMatchAt(code, p).None?
  {
    var at: nat -> Option<ExportMatch> := (p: nat) => ExportMatchAt(code, p);
    var f := FirstSome(at, 0, |code|);
    assert forall p: nat :: at(p) == ExportMatchAt(code, p);
    assert forall p: nat :: p >= |code| ==> ExportMatchAt(code, p).None?;
    if f.None? then None else Some(f.value.1)
  }

  /** What the replacement can refer to for match `m`. */
  function Info(code: string, m: ExportMatch): MatchInfo
    requires m.start <= m.exprStart <= m.semicolon < |code|
  {
    var whole := code[m.start..m.semicolon + 1];
    MatchInfo(whole, code[..m.start], code[m.semicolon + 1..], whole, code[m.exprStart..m.semicolon])
  }

  /** `code.replace(regex, rep)`. */
  function ReplaceExport(code: string, rep: string): (r: string)
    ensures FindExport(code).None? ==> r == code
    ensures FindExport(code).Some? ==> var m := FindExport(code).value;
      |r| >= m.start + (|code| - m.semicolon - 1)
      && r[..m.start] == code[..m.start] && r[|r| - (|code| - m.semicolon - 1)..] == code[m.semicolon + 1..]
  {
    var f := FindExport(code);
    if f.None? then code
    else
      var m := f.value;
      code[..m.start] + Expand(rep, Info(code, m)) + code[m.semicolon + 1..]
  }

  /** The pattern is found exactly when some `export default ` is followed,
      somewhere later, by a semicolon. */
  lemma ExportFound(code: string)
    ensures FindExport(code).Some? <==>
      exists q: nat, k: nat :: HasAt(code, q, ExportKeyword) && q + |ExportKeyword| <= k < |code| && code[k] == ';'
  {
    if FindExport(code).Some? {
      var m := FindExport(code).value;
      var q := m.exprStart - |ExportKeyword|;
      assert ExportBodyAt(code, q).Some?;
      assert HasAt(code, q, ExportKeyword) && q + |ExportKeyword| <= m.semicolon < |code| && code[m.semicolon] == ';';
    }
    if exists q: nat, k: nat :: HasAt(code, q, ExportKeyword) && q + |ExportKeyword| <= k < |code| && code[k] == ';' {
      var q: nat, k: nat :| HasAt(code, q, ExportKeyword) && q + |ExportKeyword| <= k < |code| && code[k] == ';';
      assert ExportBodyAt(code, q).Some?;
      assert ExportMatchAt(code, q).Some?;
    }
  }

  /** The replaced text is `export default `, an expression holding no
      semicolon, and the first semicolon after it, with at most a line feed
      before the keyword. */
  lemma ExportShape(code: string)
    requires FindExport(code).Some?
    ensures var m := FindExport(code).value;
      var q := m.exprStart - |ExportKeyword|;
      m.start <= q && HasAt(code, q, ExportKeyword) && code[m.semicolon] == ';'
      && ';' !in code[m.exprStart..m.semicolon]
      && (m.start == q || (m.start + 1 == q && code[m.start] == '\n'))
  {
    var m := FindExport(code).value;
    var q := m.exprStart - |ExportKeyword|;
    assert ExportMatchAt(code, m.start) == Some(m);
    assert ExportBodyAt(code, q) == Some(m.semicolon);
    assert forall k :: m.exprStart <= k < m.semicolon ==> code[k] != ';';
  }

  /** A line feed right before the keyword is part of the replaced text. */
  lemma ExportTakesLineFeed(code: string)
    requires FindExport(code).Some?
    ensures var m := FindExport(code).value;
      var q := m.exprStart - |ExportKeyword|;
      q > 0 && code[q - 1] == '\n' ==> m.start == q - 1
  {
    var m := FindExport(code).value;
    var q := m.exprStart - |ExportKeyword|;
    ExportShape(code);
    if q > 0 && code[q - 1] == '\n' {
      assert ExportBodyAt(code, q).Some?;
      assert ExportMatchAt(code, q - 1).Some?;
    }
  }

  /** A replacement whose only patterns are `$2` takes the place of the
      match with every `$2` replaced by the exported expression; the text
      around the match is kept. */
  lemma SpliceComponent(code: string, rep: string)
    requires FindExport(code).Some? && ComponentOnly(rep)
    ensures var m := FindExport(code).value;
      ReplaceExport(code, rep) ==
        code[..m.start] + ReplaceComponent(rep, code[m.exprStart..m.semicolon]) + code[m.semicolon + 1..]
  {
    var m := FindExport(code).value;
    ExpandComponentOnly(rep, Info(code, m));
  }
}
