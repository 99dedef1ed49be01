/** String operations of the JavaScript standard library that the transformer
    relies on (`indexOf`, `split`, `join`, `trim`), the character classes of
    its regular expressions (`\s`, `\w`, `\b`, `^` in multiline mode), and the
    left-to-right search that every regular-expression match starts with. */
module Text {
  import opened Wrappers

  /** `\s` and the characters `String.prototype.trim` removes: the
      ECMAScript WhiteSpace and LineTerminator code points. */
  predicate IsSpace(c: char)
  {
    c == '\t' || c == '\n' || c == '\U{B}' || c == '\U{C}' || c == '\r' || c == ' '
    || c == '\U{A0}' || c == '\U{1680}' || ('\U{2000}' <= c <= '\U{200A}')
    || c == '\U{2028}' || c == '\U{2029}' || c == '\U{202F}' || c == '\U{205F}'
    || c == '\U{3000}' || c == '\U{FEFF}'
  }

  /** The line terminators after which `^` matches in multiline mode. */
  predicate IsLineTerminator(c: char)
  {
    c == '\n' || c == '\r' || c == '\U{2028}' || c == '\U{2029}'
  }

  /** `\w`: ASCII letters, digits and underscore. */
  predicate IsWordChar(c: char)
  {
    ('a' <= c <= 'z') || ('A' <= c <= 'Z') || ('0' <= c <= '9') || c == '_'
  }

  predicate IsWordAt(s: string, i: int)
  {
    0 <= i < |s| && IsWordChar(s[i])
  }

  /** `\b` at position `i` (between `s[i-1]` and `s[i]`). */
  predicate Boundary(s: string, i: int)
  {
    IsWordAt(s, i - 1) != IsWordAt(s, i)
  }

  /** `^` with the multiline flag at position `i`. */
  predicate LineStart(s: string, i: int)
  {
    i == 0 || (0 < i <= |s| && IsLineTerminator(s[i - 1]))
  }

  /** `t` occurs in `s` starting at position `i`. */
  predicate HasAt(s: string, i: int, t: string)
  {
    0 <= i && i + |t| <= |s| && s[i..i + |t|] == t
  }

  /** The least position in `[i, n)` where `p` holds. */
  function FirstWhere(p: nat -> bool, i: nat, n: nat): (r: Option<nat>)
    ensures r.Some? ==> i <= r.value < n && p(r.value)
    ensures r.Some? ==> forall k :: i <= k < r.value ==> !p(k)
    ensures r.None? ==> forall k :: i <= k < n ==> !p(k)
    decreases n - i
  {
    if i >= n then None
    else if p(i) then Some(i)
    else FirstWhere(p, i + 1, n)
  }

  /** The least position in `[i, n)` where `f` yields something, with it. */
  function FirstSome<T>(f: nat -> Option<T>, i: nat, n: nat): (r: Option<(nat, T)>)
    ensures r.Some? ==> i <= r.value.0 < n && f(r.value.0) == Some(r.value.1)
    ensures r.Some? ==> forall k :: i <= k < r.value.0 ==> f(k).None?
    ensures r.None? ==> forall k :: i <= k < n ==> f(k).None?
    decreases n - i
  {
    if i >= n then None
    else if f(i).Some? then Some((i, f(i).value))
    else FirstSome(f, i + 1, n)
  }

  /** `s.indexOf(t)`: the first position of `t` in `s`, or -1. */
  function IndexOf(s: string, t: string): (r: int)
    ensures r == -1 <==> forall i: nat :: i <= |s| ==> !HasAt(s, i, t)
    ensures r != -1 ==> 0 <= r && HasAt(s, r, t) && forall i: nat :: i < r ==> !HasAt(s, i, t)
  {
    var at: nat -> bool := i => HasAt(s, i, t);
    var f := FirstWhere(at, 0, |s| + 1);
    assert forall i: nat :: at(i) == HasAt(s, i, t);
    if f.None? then -1 else f.value
  }

  /** `t` occurs somewhere in `s`. */
  predicate Contains(s: string, t: string)
  {
    exists i: nat :: i <= |s| && HasAt(s, i, t)
  }

  /** `s.split(sep)` for a one-character separator. */
  function Split(s: string, sep: char): (r: seq<string>)
    ensures |r| >= 1
    ensures forall i :: 0 <= i < |r| ==> sep !in r[i]
    decreases |s|
  {
    if s == [] then [""]
    else if s[0] == sep then [""] + Split(s[1..], sep)
    else
      var t := Split(s[1..], sep);
      [[s[0]] + t[0]] + t[1..]
  }

  /** `parts.join(sep)`. */
  function Join(parts: seq<string>, sep: string): string
    decreases |parts|
  {
    if parts == [] then ""
    else if |parts| == 1 then parts[0]
    else parts[0] + sep + Join(parts[1..], sep)
  }

  /** Joining the pieces of a split restores the text. */
  lemma {:induction false} JoinSplit(s: string, sep: char)
    ensures Join(Split(s, sep), [sep]) == s
    decreases |s|
  {
    if s != [] {
      JoinSplit(s[1..], sep);
      var t := Split(s[1..], sep);
      if s[0] == sep {
        assert Split(s, sep) == [""] + t;
        assert Split(s, sep)[1..] == t;
      } else {
        var r := Split(s, sep);
        assert r[1..] == t[1..];
        if |t| == 1 {
          assert r == [[s[0]] + t[0]];
        } else {
          assert Join(t, [sep]) == t[0] + [sep] + Join(t[1..], [sep]);
        }
      }
    }
  }

  /** Splitting after a separator-free piece and one separator. */
  lemma {:induction false} SplitAfter(a: string, sep: char, b: string)
    requires sep !in a
    ensures Split(a + [sep] + b, sep) == [a] + Split(b, sep)
    decreases |a|
  {
    if a == [] {
      assert a + [sep] + b == [sep] + b;
      assert ([sep] + b)[1..] == b;
    } else {
      SplitAfter(a[1..], sep, b);
      assert (a + [sep] + b)[1..] == a[1..] + [sep] + b;
      assert [a[0]] + a[1..] == a;
    }
  }

  lemma {:induction false} SplitNoSep(a: string, sep: char)
    requires sep !in a
    ensures Split(a, sep) == [a]
    decreases |a|
  {
    if a != [] {
      SplitNoSep(a[1..], sep);
      assert [a[0]] + a[1..] == a;
    }
  }

  /** Splitting a join of separator-free pieces gives the pieces back. */
  lemma {:induction false} SplitJoin(parts: seq<string>, sep: char)
    requires |parts| >= 1
    requires forall i :: 0 <= i < |parts| ==> sep !in parts[i]
    ensures Split(Join(parts, [sep]), sep) == parts
    decreases |parts|
  {
    if |parts| == 1 {
      SplitNoSep(parts[0], sep);
    } else {
      SplitJoin(parts[1..], sep);
      SplitAfter(parts[0], sep, Join(parts[1..], [sep]));
      assert [parts[0]] + parts[1..] == parts;
    }
  }

  /** `s.trimStart()`. */
  function TrimStart(s: string): (r: string)
    ensures |r| <= |s| && r == s[|s| - |r|..]
    ensures r == [] || !IsSpace(r[0])
    ensures forall k :: 0 <= k < |s| - |r| ==> IsSpace(s[k])
    decreases |s|
  {
    if s != [] && IsSpace(s[0]) then TrimStart(s[1..]) else s
  }

  /** `s.trimEnd()`. */
  function TrimEnd(s: string): (r: string)
    ensures |r| <= |s| && r == s[..|r|]
    ensures r == [] || !IsSpace(r[|r| - 1])
    ensures forall k :: |r| <= k < |s| ==> IsSpace(s[k])
    decreases |s|
  {
    if s != [] && IsSpace(s[|s| - 1]) then TrimEnd(s[..|s| - 1]) else s
  }

  /** `s.trim()`: no whitespace at either end, and only characters of `s`. */
  function Trim(s: string): (r: string)
    ensures r == [] || (!IsSpace(r[0]) && !IsSpace(r[|r| - 1]))
    ensures forall c :: c in r ==> c in s
  {
    var t := TrimStart(s);
    var r := TrimEnd(t);
    assert forall c :: c in r ==> c in t;
    r
  }

  /** A join holds no character that neither a part nor the separator holds. */
  lemma {:induction false} JoinAvoids(parts: seq<string>, sep: string, c: char)
    requires c !in sep
    requires forall i :: 0 <= i < |parts| ==> c !in parts[i]
    ensures c !in Join(parts, sep)
    decreases |parts|
  {
    if |parts| > 1 {
      JoinAvoids(parts[1..], sep, c);
    }
  }

  lemma {:induction false} TrimStartIndented(indent: string, x: string)
    requires forall k :: 0 <= k < |indent| ==> IsSpace(indent[k])
    requires x == [] || !IsSpace(x[0])
    ensures TrimStart(indent + x) == x
    decreases |indent|
  {
    if indent != [] {
      assert (indent + x)[1..] == indent[1..] + x;
      TrimStartIndented(indent[1..], x);
    }
  }

  /** Trimming leaves a text alone when it neither starts nor ends with
      whitespace, and removes any leading whitespace put before it. */
  lemma TrimIndented(indent: string, x: string)
    requires forall k :: 0 <= k < |indent| ==> IsSpace(indent[k])
    requires x == [] || (!IsSpace(x[0]) && !IsSpace(x[|x| - 1]))
    ensures Trim(indent + x) == x
  {
    TrimStartIndented(indent, x);
  }
}
