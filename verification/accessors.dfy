/** `hasAccessors` (lib/make-hot.js:162-176): whether a component declares
    `<svelte:options accessors>`.  The injected tree walker calls `enter` on
    every node, parents before children; `enter` updates the captured flag
    `accessors`.  The nodes the walker descends into are the `children` of a
    node here. */
module Accessors {
  import opened Wrappers
  import opened JsValues

  /** An attribute of a template node: its name and its value. */
  datatype Attribute = Attribute(name: string, value: JsValue)

  /** A template node: its `type`, its `attributes` array when it has one,
      and the nodes below it. */
  datatype Node = Node(kind: string, attributes: Option<seq<Attribute>>, children: seq<Node>)

  /** `compiled.ast`: the template tree under `html`, when present. */
  datatype Ast = Ast(html: Option<Node>)

  /** The compiler output `makeHot` reads: `vars`, already serialised as
      JSON (`None` when it is `undefined`), and `ast`. */
  datatype Compiled = Compiled(varsJson: Option<string>, ast: Option<Ast>)

  /** some attribute named `accessors` has a truthy value. */
  predicate IsAccessorsOption(a: Attribute)
  {
    a.name == "accessors" && Truthy(a.value)
  }

  /** A node that sets accessors: an `Options` node with an attribute
      array holding a truthy `accessors` attribute. */
  predicate Declares(n: Node)
  {
    n.kind == "Options" && n.attributes.Some?
    && exists i :: 0 <= i < |n.attributes.value| && IsAccessorsOption(n.attributes.value[i])
  }

  /** Some node of the tree rooted at `n` sets accessors. */
  predicate Found(n: Node)
    decreases n
  {
    Declares(n) || exists i :: 0 <= i < |n.children| && Found(n.children[i])
  }

  /** The nodes of the tree in the order the walker enters them. */
  function Preorder(n: Node): (r: seq<Node>)
    ensures |r| >= 1 && r[0] == n
    decreases n, 1
  {
    [n] + PreorderAll(n.children)
  }

  function PreorderAll(ns: seq<Node>): seq<Node>
    decreases ns, 0
  {
    if ns == [] then [] else Preorder(ns[0]) + PreorderAll(ns[1..])
  }

  /** Some node of the sequence sets accessors. */
  predicate AnyDeclares(ns: seq<Node>)
  {
    exists k :: 0 <= k < |ns| && Declares(ns[k])
  }

  lemma AnyDeclaresConcat(a: seq<Node>, b: seq<Node>)
    ensures AnyDeclares(a + b) <==> AnyDeclares(a) || AnyDeclares(b)
  {
    if AnyDeclares(a + b) {
      var k :| 0 <= k < |a + b| && Declares((a + b)[k]);
      if k >= |a| {
        assert b[k - |a|] == (a + b)[k];
      }
    }
    if AnyDeclares(a) {
      var k :| 0 <= k < |a| && Declares(a[k]);
      assert (a + b)[k] == a[k];
    }
    if AnyDeclares(b) {
      var k :| 0 <= k < |b| && Declares(b[k]);
      assert (a + b)[|a| + k] == b[k];
    }
  }

  /** The tree sets accessors exactly when a node the walker enters does. */
  lemma {:induction false} FoundPreorder(n: Node)
    ensures Found(n) <==> AnyDeclares(Preorder(n))
    decreases n, 1
  {
    FoundPreorderAll(n.children);
    AnyDeclaresConcat([n], PreorderAll(n.children));
    assert AnyDeclares([n]) <==> Declares(n) by {
      assert [n][0] == n;
    }
  }

  lemma {:induction false} FoundPreorderAll(ns: seq<Node>)
    ensures (exists i :: 0 <= i < |ns| && Found(ns[i])) <==> AnyDeclares(PreorderAll(ns))
    decreases ns, 0
  {
    if ns != [] {
      FoundPreorder(ns[0]);
      FoundPreorderAll(ns[1..]);
      AnyDeclaresConcat(Preorder(ns[0]), PreorderAll(ns[1..]));
      if exists i :: 0 <= i < |ns| && Found(ns[i]) {
        var i :| 0 <= i < |ns| && Found(ns[i]);
        if i > 0 {
          assert ns[1..][i - 1] == ns[i];
        }
      }
      if exists i :: 0 <= i < |ns[1..]| && Found(ns[1..][i]) {
        var i :| 0 <= i < |ns[1..]| && Found(ns[1..][i]);
        assert ns[i + 1] == ns[1..][i];
      }
    }
  }

  /** The `enter` callback: once the flag is set it stays set; otherwise an
      `Options` node with attributes sets it to whether one of them is a
      truthy `accessors`. */
  method Enter(node: Node, accessors: bool) returns (acc: bool)
    ensures acc == (accessors || Declares(node))
  {
    if accessors {
      return accessors;
    }
    if node.kind != "Options" {
      return accessors;
    }
    if node.attributes.None? {
      return accessors;
    }
    var attrs := node.attributes.value;
    // `attributes.some(...)`
    acc := false;
    var i := 0;
    while i < |attrs| && !acc
      invariant 0 <= i <= |attrs|
      invariant acc <==> exists j :: 0 <= j < i && IsAccessorsOption(attrs[j])
    {
      acc := IsAccessorsOption(attrs[i]);
      i := i + 1;
    }
  }

  /** The walk: enter the node, then walk each child in turn, threading the
      flag through. */
  method Walk(node: Node, accessors: bool) returns (acc: bool)
    ensures acc == (accessors || Found(node))
    decreases node
  {
    acc := Enter(node, accessors);
    var i := 0;
    while i < |node.children|
      invariant 0 <= i <= |node.children|
      invariant acc == (accessors || Declares(node) || exists j :: 0 <= j < i && Found(node.children[j]))
    {
      acc := Walk(node.children[i], acc);
      i := i + 1;
    }
  }

  /** What `hasAccessors(compiled)` yields: `undefined` without a template
      tree, otherwise whether some node of the tree sets accessors. */
  function AccessorsValue(compiled: Compiled): (r: JsValue)
    ensures r == Undefined || r.Bool?
    ensures r.Bool? <==> compiled.ast.Some? && compiled.ast.value.html.Some?
    ensures r.Bool? ==> (r.b <==> AnyDeclares(Preorder(compiled.ast.value.html.value)))
  {
    if compiled.ast.None? || compiled.ast.value.html.None? then Undefined
    else
      FoundPreorder(compiled.ast.value.html.value);
      Bool(Found(compiled.ast.value.html.value))
  }

  /** `hasAccessors(compiled)`: the walk with the flag starting unset. */
  method HasAccessors(compiled: Compiled) returns (r: JsValue)
    ensures r == AccessorsValue(compiled)
  {
    if compiled.ast.None? || compiled.ast.value.html.None? {
      return Undefined;
    }
    var accessors := Walk(compiled.ast.value.html.value, false);
    r := Bool(accessors);
  }
}
