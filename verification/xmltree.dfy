/**
 The already-parsed XML element tree the converter walks: the part of an
 ElementTree `Element` that the conversion reads (tag, attribute map,
 ordered children and text), plus the leaf structure of a tree.
 */
module XmlTree {

  datatype Option<T> = None | Some(value: T)

  /** One element. `text` is `None` when the element has no character data
      before its first child (ElementTree's `element.text is None`). Tags are
      opaque strings, so a namespaced `{uri}local` tag is just text. */
  datatype Node = Node(tag: string, attrib: map<string, string>, children: seq<Node>, text: Option<string>)
  {
    predicate IsLeaf() { children == [] }
  }

  /** Number of leaf elements (elements without child elements) in a tree. */
  function LeafCount(n: Node): (c: nat)
    ensures c >= 1
    decreases n
  {
    if n.IsLeaf() then 1 else LeafCountAll(n.children)
  }

  function LeafCountAll(cs: seq<Node>): (c: nat)
    ensures cs != [] ==> c >= 1
    decreases cs
  {
    if cs == [] then 0 else LeafCount(cs[0]) + LeafCountAll(cs[1..])
  }

  /** Every root-to-leaf chain of `n`, listed in left-to-right depth-first
      order of the leaves they end in. */
  function Chains(n: Node): seq<seq<Node>>
    decreases n
  {
    if n.IsLeaf() then [[n]] else PrependAll(n, ChainsAll(n.children))
  }

  function ChainsAll(cs: seq<Node>): seq<seq<Node>>
    decreases cs
  {
    if cs == [] then [] else Chains(cs[0]) + ChainsAll(cs[1..])
  }

  /** Every chain of `chs`, with `n` put in front. */
  function PrependAll(n: Node, chs: seq<seq<Node>>): seq<seq<Node>> {
    seq(|chs|, i requires 0 <= i < |chs| => [n] + chs[i])
  }

  /** `ch` runs from some node down to one of its leaves, each step going to
      a child of the previous node. */
  predicate IsRootToLeaf(ch: seq<Node>) {
    && ch != []
    && ch[|ch| - 1].IsLeaf()
    && forall i :: 0 <= i < |ch| - 1 ==> ch[i + 1] in ch[i].children
  }

  /** There is one chain per leaf, and each is a genuine path from `n` down
      to a leaf. */
  lemma {:induction false} ChainsShape(n: Node)
    ensures |Chains(n)| == LeafCount(n)
    ensures forall i :: 0 <= i < |Chains(n)| ==> Chains(n)[i][0] == n && IsRootToLeaf(Chains(n)[i])
    decreases n
  {
    if !n.IsLeaf() {
      ChainsAllShape(n.children);
      var cs := ChainsAll(n.children);
      forall i | 0 <= i < |Chains(n)|
        ensures Chains(n)[i][0] == n && IsRootToLeaf(Chains(n)[i])
      {
        var ch := Chains(n)[i];
        assert ch == [n] + cs[i];
        assert ch[1] == cs[i][0];
        forall k | 0 <= k < |ch| - 1 ensures ch[k + 1] in ch[k].children {
          if k > 0 { assert ch[k] == cs[i][k - 1] && ch[k + 1] == cs[i][k]; }
        }
      }
    }
  }

  lemma {:induction false} ChainsAllShape(cs: seq<Node>)
    ensures |ChainsAll(cs)| == LeafCountAll(cs)
    ensures forall i :: 0 <= i < |ChainsAll(cs)| ==>
      IsRootToLeaf(ChainsAll(cs)[i]) && ChainsAll(cs)[i][0] in cs
    decreases cs
  {
    if cs != [] {
      ChainsShape(cs[0]);
      ChainsAllShape(cs[1..]);
      var a, b := Chains(cs[0]), ChainsAll(cs[1..]);
      forall i | 0 <= i < |a + b|
        ensures IsRootToLeaf((a + b)[i]) && (a + b)[i][0] in cs
      {
        if i >= |a| { assert (a + b)[i] == b[i - |a|]; assert b[i - |a|][0] in cs[1..]; }
      }
    }
  }
}
