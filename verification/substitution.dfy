/** The replacement patterns of `String.prototype.replace` (GetSubstitution in
    the ECMAScript specification) for a regular expression with two capture
    groups and no named groups, as used by the splice of lib/make-hot.js:227:
    `$$` is a dollar sign, `$&` the match, `` $` `` the text before it, `$'`
    the text after it, `$1`, `$2` (also written `$01`, `$02`) the captures;
    any other `$` is kept as it is. */
module Substitution {

  /** What the replacement text can refer to. */
  datatype MatchInfo = MatchInfo(matched: string, before: string, after: string, group1: string, group2: string)

  predicate IsDecimal(c: char)
  {
    '0' <= c <= '9'
  }

  function DecimalValue(c: char): nat
    requires IsDecimal(c)
  {
    (c as int - '0' as int) as nat
  }

  function Group(m: MatchInfo, n: nat): string
    requires 1 <= n <= 2
  {
    if n == 1 then m.group1 else m.group2
  }

  /** The replacement text with its patterns expanded, scanning left to
      right. */
  function Expand(rep: string, m: MatchInfo): (r: string)
    decreases |rep|
  {
    if rep == [] then []
    else if rep[0] == '$' && |rep| >= 2 then
      var c := rep[1];
      if c == '$' then "$" + Expand(rep[2..], m)
      else if c == '&' then m.matched + Expand(rep[2..], m)
      else if c == '`' then m.before + Expand(rep[2..], m)
      else if c == '\'' then m.after + Expand(rep[2..], m)
      else if IsDecimal(c) then
        var d := DecimalValue(c);
        if |rep| >= 3 && IsDecimal(rep[2]) && 1 <= 10 * d + DecimalValue(rep[2]) <= 2 then
          Group(m, 10 * d + DecimalValue(rep[2])) + Expand(rep[3..], m)
        else if 1 <= d <= 2 then Group(m, d) + Expand(rep[2..], m)
        else "$" + Expand(rep[1..], m)
      else "$" + Expand(rep[1..], m)
    else [rep[0]] + Expand(rep[1..], m)
  }

  /** Text without a dollar sign is copied as it is. */
  lemma {:induction false} ExpandPlain(a: string, b: string, m: MatchInfo)
    requires '$' !in a
    ensures Expand(a + b, m) == a + Expand(b, m)
    decreases |a|
  {
    if a == [] {
      assert a + b == b;
    } else {
      assert a[0] in a;
      var ab := a + b;
      assert ab[0] == a[0] != '$' && ab[1..] == a[1..] + b;
      assert Expand(ab, m) == [a[0]] + Expand(a[1..] + b, m);
      assert '$' !in a[1..] by { assert forall c :: c in a[1..] ==> c in a; }
      ExpandPlain(a[1..], b, m);
      assert [a[0]] + (a[1..] + Expand(b, m)) == a + Expand(b, m);
    }
  }

  /** `$2` is the second capture, whatever follows it. */
  lemma ExpandGroup2(b: string, m: MatchInfo)
    ensures Expand("$2" + b, m) == m.group2 + Expand(b, m)
  {
    var rep := "$2" + b;
    assert rep[0] == '$' && rep[1] == '2' && rep[2..] == b;
  }

  /** The text's only dollar signs are those of `$2`. */
  predicate ComponentOnly(s: string)
  {
    forall i :: 0 <= i < |s| && s[i] == '$' ==> i + 1 < |s| && s[i + 1] == '2'
  }

  /** Every occurrence of `$2` replaced by `e`, left to right: the reference
      for the expansion of a text whose only patterns are `$2`. */
  function ReplaceComponent(s: string, e: string): string
    decreases |s|
  {
    if s == [] then []
    else if |s| >= 2 && s[0] == '$' && s[1] == '2' then e + ReplaceComponent(s[2..], e)
    else [s[0]] + ReplaceComponent(s[1..], e)
  }

  /** When `$2` is the only pattern, expanding the replacement substitutes
      the second capture for each `$2` and changes nothing else. */
  lemma {:induction false} ExpandComponentOnly(rep: string, m: MatchInfo)
    requires ComponentOnly(rep)
    ensures Expand(rep, m) == ReplaceComponent(rep, m.group2)
    decreases |rep|
  {
    if rep != [] {
      if rep[0] == '$' {
        assert rep == "$2" + rep[2..];
        ExpandGroup2(rep[2..], m);
        assert ComponentOnly(rep[2..]) by {
          forall i | 0 <= i < |rep[2..]| && rep[2..][i] == '$'
            ensures i + 1 < |rep[2..]| && rep[2..][i + 1] == '2'
          {
            assert rep[i + 2] == '$';
          }
        }
        ExpandComponentOnly(rep[2..], m);
      } else {
        assert ComponentOnly(rep[1..]) by {
          forall i | 0 <= i < |rep[1..]| && rep[1..][i] == '$'
            ensures i + 1 < |rep[1..]| && rep[1..][i + 1] == '2'
          {
            assert rep[i + 1] == '$';
          }
        }
        ExpandComponentOnly(rep[1..], m);
      }
    }
  }

  /** Gluing texts whose only patterns are `$2` keeps that so. */
  lemma ComponentOnlyConcat(a: string, b: string)
    requires ComponentOnly(a) && ComponentOnly(b)
    ensures ComponentOnly(a + b)
  {
    var s := a + b;
    forall i | 0 <= i < |s| && s[i] == '$'
      ensures i + 1 < |s| && s[i + 1] == '2'
    {
      if i < |a| {
        assert a[i] == '$';
      } else {
        assert b[i - |a|] == '$';
      }
    }
  }

  lemma ComponentOnlyPlain(a: string)
    requires '$' !in a
    ensures ComponentOnly(a)
  {
  }

  /** Without `$2` there is nothing to replace. */
  lemma {:induction false} ReplacePlain(s: string, e: string)
    requires '$' !in s
    ensures ReplaceComponent(s, e) == s
    decreases |s|
  {
    if s != [] {
      ReplacePlain(s[1..], e);
      assert [s[0]] + s[1..] == s;
    }
  }

  /** Dropping a prefix that does not end inside a `$2` keeps the property. */
  lemma ComponentOnlyDrop(a: string, n: nat)
    requires ComponentOnly(a) && n <= |a| && (n == 0 || a[n - 1] != '$')
    ensures ComponentOnly(a[n..])
  {
    var t := a[n..];
    forall i | 0 <= i < |t| && t[i] == '$'
      ensures i + 1 < |t| && t[i + 1] == '2'
    {
      assert a[n + i] == '$';
    }
  }

  /** A text whose patterns are all `$2` ends on no pattern, so the
      replacement of a concatenation is the concatenation of the
      replacements. */
  lemma {:induction false} ReplaceConcat(a: string, b: string, e: string)
    requires ComponentOnly(a)
    ensures ReplaceComponent(a + b, e) == ReplaceComponent(a, e) + ReplaceComponent(b, e)
    decreases |a|
  {
    var ab := a + b;
    if a == [] {
      assert ab == b;
    } else if a[0] == '$' {
      assert |a| >= 2 && a[1] == '2';
      assert ab[0] == '$' && ab[1] == '2' && ab[2..] == a[2..] + b;
      ComponentOnlyDrop(a, 2);
      ReplaceConcat(a[2..], b, e);
      assert ReplaceComponent(ab, e) == e + ReplaceComponent(a[2..] + b, e);
      assert ReplaceComponent(a, e) == e + ReplaceComponent(a[2..], e);
    } else {
      assert ab[0] == a[0] && ab[1..] == a[1..] + b;
      ComponentOnlyDrop(a, 1);
      ReplaceConcat(a[1..], b, e);
      assert ReplaceComponent(ab, e) == [a[0]] + ReplaceComponent(a[1..] + b, e);
      assert ReplaceComponent(a, e) == [a[0]] + ReplaceComponent(a[1..], e);
    }
  }

  /** One `$2` between plain texts is replaced by `e`. */
  lemma ReplaceBetween(pre: string, post: string, e: string)
    requires '$' !in pre && '$' !in post
    ensures ReplaceComponent(pre + "$2" + post, e) == pre + e + post
  {
    ComponentOnlyPlain(pre);
    ReplaceConcat(pre, "$2" + post, e);
    assert pre + "$2" + post == pre + ("$2" + post);
    ReplacePlain(pre, e);
    var t := "$2" + post;
    assert t[2..] == post;
    ReplacePlain(post, e);
  }
}
