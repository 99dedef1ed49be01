/** `parseCssId` (lib/make-hot.js:134-154): finds the stylesheet-injection
    function `add_css` in the compiled code, reads the id its `<style>`
    element gets, and hashes the rest of the code with the id's hash part
    deleted.  The three regular expressions of the source are written out
    as scanners:
      /^function add_css\(\) \{[\s\S]*?^}/m          AddCssAt, FindAddCss
      /\bstyle\.id\s*=\s*(['"])([^'"]*)\1/            StyleIdAt, FindStyleId
      new RegExp('\\b' + cssHash + '\\b', 'g')        DeleteWords */
module CssId {
  import opened Wrappers
  import opened JsValues
  import opened Text
  import StringHash

  // ---------------------------------------------------------------------
  // The add_css function

  const AddCssHeader := "function add_css() {"

  /** `^}` matches at `q`: a closing brace at the start of a line. */
  predicate CloserAt(code: string, q: nat)
  {
    q < |code| && LineStart(code, q) && code[q] == '}'
  }

  /** The header of the `add_css` function starts at `p`, at a line start. */
  predicate HeaderAt(code: string, p: nat)
  {
    LineStart(code, p) && HasAt(code, p, AddCssHeader)
  }

  /** The match of the add_css regex that starts at `p`, as its end: the
      lazy `[\s\S]*?` stops at the first line-start `}` after the header. */
  function AddCssAt(code: string, p: nat): (r: Option<nat>)
    ensures r.Some? <==> HeaderAt(code, p) && exists q: nat :: p + |AddCssHeader| <= q && CloserAt(code, q)
    ensures r.Some? ==> p + |AddCssHeader| < r.value <= |code| && CloserAt(code, r.value - 1)
    ensures r.Some? ==> forall q: nat :: p + |AddCssHeader| <= q < r.value - 1 ==> !CloserAt(code, q)
  {
    if HeaderAt(code, p) then
      var closer: nat -> bool := (q: nat) => CloserAt(code, q);
      var f := FirstWhere(closer, p + |AddCssHeader|, |code|);
      assert forall q: nat :: closer(q) == CloserAt(code, q);
      if f.None? then None else Some(f.value + 1)
    else None
  }

  /** `exec` of the add_css regex: the match with the leftmost start, as
      (start, end). */
  function FindAddCss(code: string): (r: Option<(nat, nat)>)
    ensures r.Some? ==> r.value.0 < r.value.1 <= |code| && AddCssAt(code, r.value.0) == Some(r.value.1)
    ensures r.Some? ==> forall p: nat :: p < r.value.0 ==> AddCssAt(code, p).None?
    ensures r.None? ==> forall p: nat :: AddCssAt(code, p).None?
  {
    var at: nat -> Option<nat> := (p: nat) => AddCssAt(code, p);
    var f := FirstSome(at, 0, |code|);
    assert forall p: nat :: at(p) == AddCssAt(code, p);
    assert forall p: nat :: p >= |code| ==> AddCssAt(code, p).None?;
    if f.None? then None else Some(f.value)
  }

  // ---------------------------------------------------------------------
  // The style.id assignment

  const StyleIdText := "style.id"

  predicate IsQuote(c: char)
  {
    c == '\'' || c == '"'
  }

  predicate AllSpaces(s: string, i: nat, j: nat)
  {
    forall k :: i <= k < j && k < |s| ==> IsSpace(s[k])
  }

  /** `\s*` from `i`: the first position at or after `i` that is not
      whitespace. */
  function SkipSpaces(s: string, i: nat): (j: nat)
    requires i <= |s|
    ensures i <= j <= |s| && AllSpaces(s, i, j) && (j == |s| || !IsSpace(s[j]))
    decreases |s| - i
  {
    if i < |s| && IsSpace(s[i]) then SkipSpaces(s, i + 1) else i
  }

  /** `[^'"]*` from `i`. */
  function SkipNonQuotes(s: string, i: nat): (j: nat)
    requires i <= |s|
    ensures i <= j <= |s| && (forall k :: i <= k < j ==> !IsQuote(s[k])) && (j == |s| || IsQuote(s[j]))
    decreases |s| - i
  {
    if i < |s| && !IsQuote(s[i]) then SkipNonQuotes(s, i + 1) else i
  }

  /** Where the parts of a `style.id = '…'` match lie: the `=`, the opening
      quote and the closing quote. */
  datatype StyleIdMatch = StyleIdMatch(eq: nat, open: nat, close: nat)

  /** The text from `s` on is `style.id`, spaces, `=`, spaces, a quote,
      quote-free text and the same quote again, and `s` is at a word
      boundary. */
  predicate StyleIdShape(m: string, s: nat, x: StyleIdMatch)
  {
    Boundary(m, s) && HasAt(m, s, StyleIdText)
    && s + |StyleIdText| <= x.eq < x.open < x.close < |m|
    && AllSpaces(m, s + |StyleIdText|, x.eq) && m[x.eq] == '='
    && AllSpaces(m, x.eq + 1, x.open) && IsQuote(m[x.open])
    && (forall k :: x.open < k < x.close ==> !IsQuote(m[k]))
    && m[x.close] == m[x.open]
  }

  /** The match of the style.id regex that starts at `s`.  Backtracking
      never helps this regex: every quantifier is followed by a character
      it cannot consume, so one forward pass decides the match. */
  function StyleIdAt(m: string, s: nat): (r: Option<StyleIdMatch>)
    ensures r.Some? ==> StyleIdShape(m, s, r.value)
  {
    if Boundary(m, s) && HasAt(m, s, StyleIdText) then
      var j := SkipSpaces(m, s + |StyleIdText|);
      if j < |m| && m[j] == '=' then
        var k := SkipSpaces(m, j + 1);
        if k < |m| && IsQuote(m[k]) then
          var b := SkipNonQuotes(m, k + 1);
          if b < |m| && m[b] == m[k] then Some(StyleIdMatch(j, k, b)) else None
        else None
      else None
    else None
  }

  /** Every text of that shape is found: together with the ensures of
      StyleIdAt, the scanner matches exactly the shape. */
  lemma StyleIdAtComplete(m: string, s: nat, x: StyleIdMatch)
    requires StyleIdShape(m, s, x)
    ensures StyleIdAt(m, s) == Some(x)
  {
    var j := SkipSpaces(m, s + |StyleIdText|);
    assert j == x.eq by {
      assert !IsSpace(m[x.eq]);
      assert j <= x.eq;
    }
    var k := SkipSpaces(m, j + 1);
    assert k == x.open by {
      assert !IsSpace(m[x.open]);
      assert k <= x.open;
    }
    var b := SkipNonQuotes(m, k + 1);
    assert b == x.close by {
      assert b <= x.close;
    }
  }

  /** `exec` of the style.id regex: the leftmost match. */
  function FindStyleId(m: string): (r: Option<(nat, StyleIdMatch)>)
    ensures r.Some? ==> StyleIdAt(m, r.value.0) == Some(r.value.1)
    ensures r.Some? ==> forall s: nat :: s < r.value.0 ==> StyleIdAt(m, s).None?
    ensures r.None? ==> forall s: nat :: StyleIdAt(m, s).None?
  {
    var at: nat -> Option<StyleIdMatch> := (s: nat) => StyleIdAt(m, s);
    var f := FirstSome(at, 0, |m|);
    assert forall s: nat :: at(s) == StyleIdAt(m, s);
    assert forall s: nat :: s >= |m| ==> StyleIdAt(m, s).None?;
    f
  }

  /** The match at `s` is the leftmost one. */
  predicate LeftmostStyleId(m: string, s: nat, x: StyleIdMatch)
  {
    StyleIdAt(m, s) == Some(x) && forall t: nat :: t < s ==> StyleIdAt(m, t).None?
  }

  /** The id: `null` without a match, otherwise the text between the quotes
      of the leftmost match. */
  function CssIdOf(span: string): (r: JsValue)
    ensures r.Null? || r.Str?
    ensures r.Str? ==> forall k :: 0 <= k < |r.s| ==> !IsQuote(r.s[k])
  {
    match FindStyleId(span)
    case None => Null
    case Some((_, x)) => Str(span[x.open + 1..x.close])
  }

  /** The id is `null` exactly when no position matches; a string id is the
      text between the quotes of the leftmost match. */
  lemma CssIdLeftmost(span: string)
    ensures CssIdOf(span).Null? <==> forall s: nat :: StyleIdAt(span, s).None?
    ensures CssIdOf(span).Str? ==>
      (exists s: nat, x :: LeftmostStyleId(span, s, x) && x.open < x.close <= |span|
         && CssIdOf(span).s == span[x.open + 1..x.close])
  {
    if CssIdOf(span).Str? {
      var (s, x) := FindStyleId(span).value;
      assert LeftmostStyleId(span, s, x);
    }
  }

  // ---------------------------------------------------------------------
  // The hash part of the id and its deletion

  /** The text of `cssId.split('-')[1]` as the regex source sees it: the
      part between the first and the second hyphen, or `undefined` when the
      id has no hyphen (string concatenation turns the missing element into
      the word "undefined"). */
  function CssHash(cssId: string): (r: string)
    ensures '-' !in r
  {
    var parts := Split(cssId, '-');
    if |parts| >= 2 then parts[1] else "undefined"
  }

  /** For an id `<name>-<hash>`, optionally followed by more `-…` parts,
      the hash part is `<hash>`. */
  lemma CssHashOfComponentId(name: string, hash: string, rest: string)
    requires '-' !in name && '-' !in hash
    requires rest == [] || rest[0] == '-'
    ensures CssHash(name + "-" + hash + rest) == hash
  {
    SplitAfter(name, '-', hash + rest);
    assert name + "-" + hash + rest == name + ['-'] + (hash + rest);
    if rest == [] {
      SplitNoSep(hash, '-');
      assert hash + rest == hash;
    } else {
      SplitAfter(hash, '-', rest[1..]);
      assert hash + rest == hash + ['-'] + rest[1..];
    }
  }

  /** An id without hyphen makes the source delete the word "undefined". */
  lemma CssHashWithoutHyphen(cssId: string)
    requires '-' !in cssId
    ensures CssHash(cssId) == "undefined"
  {
    SplitNoSep(cssId, '-');
  }

  /** `\bw\b` matches at `i`. */
  predicate WholeWordAt(t: string, i: nat, w: string)
  {
    HasAt(t, i, w) && Boundary(t, i) && Boundary(t, i + |w|)
  }

  /** The global deletion of `w` as a whole word, from position `i` on: matches are searched
      left to right in the original text, each one is dropped and the search
      resumes after it.  An empty `w` only matches the empty string, whose
      replacement leaves the text as it is. */
  function DeleteFrom(t: string, w: string, i: nat): (r: string)
    ensures i <= |t| ==> |r| <= |t| - i
    decreases |t| - i
  {
    if i >= |t| then ""
    else if |w| > 0 && WholeWordAt(t, i, w) then DeleteFrom(t, w, i + |w|)
    else [t[i]] + DeleteFrom(t, w, i + 1)
  }

  function DeleteWords(t: string, w: string): (r: string)
    ensures |r| <= |t|
  {
    DeleteFrom(t, w, 0)
  }

  predicate IsWord(w: string)
  {
    |w| > 0 && forall k :: 0 <= k < |w| ==> IsWordChar(w[k])
  }

  /** Position `k` lies inside some whole-word occurrence of `w`. */
  predicate Covered(t: string, w: string, k: nat)
  {
    exists i: nat :: i <= k < i + |w| && WholeWordAt(t, i, w)
  }

  /** The reference definition: the characters of `t` from `k` on that lie
      in no whole-word occurrence of `w`, in order. */
  function Uncovered(t: string, w: string, k: nat): string
    decreases |t| - k
  {
    if k >= |t| then "" else (if Covered(t, w, k) then "" else [t[k]]) + Uncovered(t, w, k + 1)
  }

  /** Whole-word occurrences of a word never overlap: inside one there is
      no word boundary. */
  lemma NoOverlap(t: string, w: string, i: nat, j: nat)
    requires IsWord(w) && WholeWordAt(t, i, w) && i < j < i + |w|
    ensures !WholeWordAt(t, j, w)
  {
    assert t[j - 1] == w[j - 1 - i] && t[j] == w[j - i];
  }

  lemma {:induction false} SkipOccurrence(t: string, w: string, i: nat, k: nat)
    requires WholeWordAt(t, i, w) && i <= k <= i + |w|
    ensures Uncovered(t, w, k) == Uncovered(t, w, i + |w|)
    decreases i + |w| - k
  {
    if k < i + |w| {
      assert k < |t| && Covered(t, w, k);
      assert Uncovered(t, w, k) == "" + Uncovered(t, w, k + 1);
      SkipOccurrence(t, w, i, k + 1);
    }
  }

  /** No occurrence starts shortly before `i` and reaches over it. */
  predicate NoneReaching(t: string, w: string, i: nat)
  {
    forall j: nat :: j < i < j + |w| ==> !WholeWordAt(t, j, w)
  }

  /** After an occurrence at `i`, none reaches over its end. */
  lemma ReachingAfterMatch(t: string, w: string, i: nat)
    requires IsWord(w) && WholeWordAt(t, i, w)
    ensures NoneReaching(t, w, i + |w|)
  {
    forall j: nat | j < i + |w| < j + |w|
      ensures !WholeWordAt(t, j, w)
    {
      if i < j {
        NoOverlap(t, w, i, j);
      }
    }
  }

  /** Without an occurrence at `i`, position `i` is kept, and none reaches
      over `i + 1`. */
  lemma ReachingAfterChar(t: string, w: string, i: nat)
    requires i < |t| && NoneReaching(t, w, i) && !WholeWordAt(t, i, w)
    ensures !Covered(t, w, i)
    ensures NoneReaching(t, w, i + 1)
  {
  }

  lemma {:induction false} DeleteFromUncovered(t: string, w: string, i: nat)
    requires IsWord(w) && i <= |t| && NoneReaching(t, w, i)
    ensures DeleteFrom(t, w, i) == Uncovered(t, w, i)
    decreases |t| - i
  {
    if i < |t| {
      if WholeWordAt(t, i, w) {
        SkipOccurrence(t, w, i, i);
        ReachingAfterMatch(t, w, i);
        DeleteFromUncovered(t, w, i + |w|);
        assert DeleteFrom(t, w, i) == DeleteFrom(t, w, i + |w|);
      } else {
        ReachingAfterChar(t, w, i);
        DeleteFromUncovered(t, w, i + 1);
        assert DeleteFrom(t, w, i) == [t[i]] + DeleteFrom(t, w, i + 1);
        assert Uncovered(t, w, i) == [t[i]] + Uncovered(t, w, i + 1);
      }
    }
  }

  /** Deleting the whole-word occurrences of a word scanning left to right
      removes exactly the characters that lie in one: every occurrence goes,
      nothing else does. */
  lemma DeleteWordsRemovesOccurrences(t: string, w: string)
    requires IsWord(w)
    ensures DeleteWords(t, w) == Uncovered(t, w, 0)
  {
    DeleteFromUncovered(t, w, 0);
  }

  lemma {:induction false} DeleteFromNothing(t: string, w: string, i: nat)
    requires i <= |t|
    requires |w| == 0 || forall j: nat :: i <= j ==> !WholeWordAt(t, j, w)
    ensures DeleteFrom(t, w, i) == t[i..]
    decreases |t| - i
  {
    if i < |t| {
      DeleteFromNothing(t, w, i + 1);
      assert t[i..] == [t[i]] + t[i + 1..];
    }
  }

  /** A text with no whole-word occurrence, or an empty pattern, is left
      unchanged. */
  lemma DeleteWordsNothing(t: string, w: string)
    requires |w| == 0 || forall j: nat :: !WholeWordAt(t, j, w)
    ensures DeleteWords(t, w) == t
  {
    DeleteFromNothing(t, w, 0);
  }

  // ---------------------------------------------------------------------
  // parseCssId

  /** The object `parseCssId` returns: `{}` is two `Undefined`s, `{ cssId }`
      has an `Undefined` hash. */
  datatype CssMeta = CssMeta(cssId: JsValue, nonCssHash: JsValue)

  /** `parseCssId(code, parseHash)`. */
  function ParseCssId(code: string, parseHash: JsValue): (r: CssMeta)
    ensures FindAddCss(code).None? <==> r == CssMeta(Undefined, Undefined)
    ensures FindAddCss(code).Some? ==> var (p, e) := FindAddCss(code).value;
      r.cssId == CssIdOf(code[p..e])
    ensures r.nonCssHash.Undefined? || r.nonCssHash.Str?
    ensures r.nonCssHash.Str? <==> Truthy(parseHash) && r.cssId.Str? && r.cssId.s != ""
    ensures r.nonCssHash.Str? ==> var (p, e) := FindAddCss(code).value;
      r.nonCssHash.s == StringHash.Hashcode(DeleteWords(code[..p] + code[e..], CssHash(r.cssId.s)))
  {
    match FindAddCss(code)
    case None => CssMeta(Undefined, Undefined)
    case Some((p, e)) =>
      var codeExceptCss := code[..p] + code[e..];
      var cssId := CssIdOf(code[p..e]);
      if !Truthy(parseHash) || !Truthy(cssId) then CssMeta(cssId, Undefined)
      else CssMeta(cssId, Str(StringHash.Hashcode(DeleteWords(codeExceptCss, CssHash(cssId.s)))))
  }

  /** Cutting the add_css span out and putting it back gives the code: the
      rest keeps every other character, in order. */
  lemma CutAndRestore(code: string)
    requires FindAddCss(code).Some?
    ensures var (p, e) := FindAddCss(code).value;
      var rest := code[..p] + code[e..];
      rest[..p] + code[p..e] + rest[p..] == code && |rest| == |code| - (e - p)
  {
    var (p, e) := FindAddCss(code).value;
    var rest := code[..p] + code[e..];
    assert rest[..p] == code[..p];
    assert rest[p..] == code[e..];
    assert code[..p] + code[p..e] + code[e..] == code;
  }
}
