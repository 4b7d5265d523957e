/**
 An abstract view of the few DOM facilities the alt-text gate relies on:
 a node tree reached through `firstChild` links, text nodes whose
 `textContent` can be rewritten, class lists, child lists of a parent
 element, and the substring test `String.prototype.includes`.
 */
module Dom {

  datatype Option<T> = None | Some(value: T)

  /** A DOM node: a text node carries its data, an element its child nodes. */
  datatype Node = Text(data: string) | Element(children: seq<Node>)

  /** `node.firstChild`: text nodes and empty elements have none. */
  function FirstChild(n: Node): (r: Option<Node>)
    ensures r.Some? <==> n.Element? && |n.children| > 0
    ensures r.Some? ==> r.value < n
  {
    if n.Element? && |n.children| > 0 then Some(n.children[0]) else None
  }

  /** The `firstChild` chain starting at `n`: n, n.firstChild, n.firstChild.firstChild, ... */
  function Chain(n: Node): (c: seq<Node>)
    ensures |c| >= 1 && c[0] == n
  {
    if n.Element? && |n.children| > 0 then [n] + Chain(n.children[0]) else [n]
  }

  /**
   The first text node on the `firstChild` chain of `n` (the node itself
   included), or None when the chain ends without reaching one.
   */
  function FirstText(n: Node): (r: Option<Node>)
    ensures r.Some? ==> r.value.Text?
  {
    match n
    case Text(_) => Some(n)
    case Element(cs) => if |cs| == 0 then None else FirstText(cs[0])
  }

  /** Successive entries of a chain are linked by `firstChild`, and the chain stops only where there is no first child. */
  lemma {:induction false} ChainLinks(n: Node, k: nat)
    requires k < |Chain(n)|
    ensures k + 1 < |Chain(n)| ==> FirstChild(Chain(n)[k]) == Some(Chain(n)[k + 1])
    ensures k + 1 == |Chain(n)| ==> FirstChild(Chain(n)[k]).None?
  {
    if k > 0 {
      ChainLinks(n.children[0], k - 1);
    }
  }

  /**
   FirstText follows only `firstChild` links: it finds nothing exactly when no
   node of the chain is a text node, and otherwise it finds the earliest text
   node of the chain and never any other node.
   */
  lemma {:induction false} FirstTextIsFirstOnChain(n: Node)
    ensures FirstText(n).None? <==> forall k :: 0 <= k < |Chain(n)| ==> !Chain(n)[k].Text?
    ensures FirstText(n).Some? ==>
      exists k :: 0 <= k < |Chain(n)| && Chain(n)[k] == FirstText(n).value &&
        forall j :: 0 <= j < k ==> !Chain(n)[j].Text?
  {
    match n
    case Text(_) =>
      assert Chain(n)[0] == n;
    case Element(cs) =>
      if |cs| > 0 {
        FirstTextIsFirstOnChain(cs[0]);
        assert Chain(n) == [n] + Chain(cs[0]);
        if FirstText(n).Some? {
          var k :| 0 <= k < |Chain(cs[0])| && Chain(cs[0])[k] == FirstText(n).value &&
            forall j :: 0 <= j < k ==> !Chain(cs[0])[j].Text?;
          assert Chain(n)[k + 1] == FirstText(n).value;
          assert forall j :: 0 <= j < k + 1 ==> !Chain(n)[j].Text? by {
            forall j | 0 <= j < k + 1 ensures !Chain(n)[j].Text? {
              if j > 0 { assert Chain(n)[j] == Chain(cs[0])[j - 1]; }
            }
          }
        } else {
          forall k | 0 <= k < |Chain(n)| ensures !Chain(n)[k].Text? {
            if k > 0 { assert Chain(n)[k] == Chain(cs[0])[k - 1]; }
          }
        }
      } else {
        assert Chain(n) == [n];
      }
  }

  /**
   Setting `textContent` of the text node FirstText finds, as a new tree:
   the chain is rebuilt down to that node; every other node is kept.
   */
  function WithChainText(n: Node, t: string): (r: Node)
    ensures r.Element? <==> n.Element?
    ensures r.Text? ==> r == Text(t)
    ensures r.Element? ==> |r.children| == |n.children| && (|n.children| > 0 ==> r.children[1..] == n.children[1..])
    ensures |Chain(r)| == |Chain(n)|
  {
    match n
    case Text(_) => Text(t)
    case Element(cs) => if |cs| == 0 then n else Element([WithChainText(cs[0], t)] + cs[1..])
  }

  /** After the write, the text node on the chain reads `t`; without a text node on the chain the tree is untouched. */
  lemma {:induction false} WithChainTextWrites(n: Node, t: string)
    ensures FirstText(n).Some? ==> FirstText(WithChainText(n, t)) == Some(Text(t))
    ensures FirstText(n).None? ==> WithChainText(n, t) == n
  {
    match n
    case Text(_) =>
    case Element(cs) =>
      if |cs| > 0 {
        WithChainTextWrites(cs[0], t);
        if FirstText(n).None? {
          assert [cs[0]] + cs[1..] == cs;
        }
      }
  }

  /** Writing back the text that was there restores the tree exactly. */
  lemma {:induction false} WithChainTextRestores(n: Node, t: string)
    requires FirstText(n).Some?
    ensures WithChainText(WithChainText(n, t), FirstText(n).value.data) == n
  {
    match n
    case Text(_) =>
    case Element(cs) =>
      WithChainTextRestores(cs[0], t);
      assert [WithChainText(cs[0], t)] + cs[1..] == [WithChainText(cs[0], t)] + cs[1..];
      assert [cs[0]] + cs[1..] == cs;
  }

  /** A second write replaces the first one: only the last text written is kept. */
  lemma {:induction false} WithChainTextLastWins(n: Node, a: string, b: string)
    ensures WithChainText(WithChainText(n, a), b) == WithChainText(n, b)
  {
    match n
    case Text(_) =>
    case Element(cs) =>
      if |cs| > 0 {
        WithChainTextLastWins(cs[0], a, b);
        var cs' := [WithChainText(cs[0], a)] + cs[1..];
        assert cs'[0] == WithChainText(cs[0], a) && cs'[1..] == cs[1..];
      }
  }

  /** The label of an element with the given children: the data of the first text node on its `firstChild` chain. */
  function Label(cs: seq<Node>): (r: Option<string>)
    ensures r.Some? <==> FirstText(Element(cs)).Some?
    ensures r.Some? ==> FirstText(Element(cs)) == Some(Text(r.value))
  {
    var found := FirstText(Element(cs));
    if found.Some? then Some(found.value.data) else None
  }

  /** The children of an element after the text node on its `firstChild` chain has been set to `t`. */
  function SetLabel(cs: seq<Node>, t: string): (r: seq<Node>)
    ensures |r| == |cs|
    ensures |cs| > 0 ==> r[1..] == cs[1..] && |Chain(r[0])| == |Chain(cs[0])|
  {
    WithChainText(Element(cs), t).children
  }

  /** SetLabel changes the label to `t` when there is one, and leaves a label-less element as it is. */
  lemma SetLabelWrites(cs: seq<Node>, t: string)
    ensures Label(cs).Some? ==> Label(SetLabel(cs, t)) == Some(t)
    ensures Label(cs).None? ==> SetLabel(cs, t) == cs
  {
    WithChainTextWrites(Element(cs), t);
  }

  /** Writing the old label back after any write restores the children exactly. */
  lemma SetLabelRestores(cs: seq<Node>, t: string)
    requires Label(cs).Some?
    ensures SetLabel(SetLabel(cs, t), Label(cs).value) == cs
  {
    WithChainTextRestores(Element(cs), t);
  }

  /** Setting `textContent` of an element: its children become one text node (none for the empty string). */
  function SetTextContent(t: string): (cs: seq<Node>)
    ensures t != "" ==> Label(cs) == Some(t)
    ensures t == "" ==> cs == []
  {
    if t == "" then []
    else
      assert FirstText(Element([Text(t)])) == FirstText(Text(t));
      [Text(t)]
  }

  /** No value occurs twice, as in a DOMTokenList or a parent's child list. */
  predicate NoDuplicates<T(==)>(s: seq<T>)
  {
    forall i, j :: 0 <= i < j < |s| ==> s[i] != s[j]
  }

  /** `classList.add(c)`: appended unless already present. */
  function AddClass(cs: seq<string>, c: string): (r: seq<string>)
    ensures c in r
    ensures forall x :: x in r <==> x in cs || x == c
    ensures NoDuplicates(cs) ==> NoDuplicates(r)
    ensures c in cs ==> r == cs
    ensures c !in cs ==> r == cs + [c]
  {
    if c in cs then cs else cs + [c]
  }

  /** `classList.remove(c)`: every occurrence of `c` is dropped, every other class is kept. */
  function RemoveClass(cs: seq<string>, c: string): (r: seq<string>)
    ensures c !in r
    ensures forall x :: x in r <==> x in cs && x != c
    ensures |r| <= |cs|
    ensures c !in cs ==> r == cs
  {
    if cs == [] then []
    else if cs[0] == c then RemoveClass(cs[1..], c)
    else [cs[0]] + RemoveClass(cs[1..], c)
  }

  /** Removing a class that was just added, when it was not there before, gives back the original list. */
  lemma {:induction false} RemoveAddedClass(cs: seq<string>, c: string)
    requires c !in cs
    ensures RemoveClass(AddClass(cs, c), c) == cs
  {
    if cs != [] {
      RemoveAddedClass(cs[1..], c);
      assert (cs + [c])[1..] == cs[1..] + [c];
    }
  }

  /** `Array.prototype.indexOf`: the first position holding `x`, or -1. */
  function IndexOf(s: seq<DomElement>, x: DomElement): (i: int)
    ensures -1 <= i < |s|
    ensures i == -1 <==> x !in s
    ensures i >= 0 ==> s[i] == x && x !in s[..i]
  {
    if s == [] then -1
    else if s[0] == x then 0
    else
      var j := IndexOf(s[1..], x);
      if j == -1 then -1 else j + 1
  }

  /** `lit` occurs in `s` starting at position `i`. */
  predicate LiteralAt(s: string, i: int, lit: string)
  {
    0 <= i && i + |lit| <= |s| && s[i..i + |lit|] == lit
  }

  /** `s.includes(sub)`. */
  function Includes(s: string, sub: string): (r: bool)
    ensures sub == [] ==> r
    ensures r ==> |sub| <= |s|
  {
    assert sub == [] ==> LiteralAt(s, 0, sub);
    exists i | 0 <= i <= |s| :: LiteralAt(s, i, sub)
  }

  /** An attachment group: whether it holds an `img`, its `textContent`, and the `src` of that image. */
  datatype Group = Group(hasImg: bool, textContent: string, imgSrc: string)

  /**
   An element of the page whose state the gate changes in place: its
   subtree, its class list, its inline `style.display` and its parent.
   */
  class DomElement {
    var children: seq<Node>
    var classes: seq<string>
    var display: string
    var parent: Container?

    constructor (children: seq<Node>, classes: seq<string>, display: string)
      ensures this.children == children && this.classes == classes && this.display == display
      ensures parent == null
    {
      this.children := children;
      this.classes := classes;
      this.display := display;
      parent := null;
    }

    /** `cloneNode(true)`: a fresh, parentless element with the same subtree, classes and style. */
    constructor CloneOf(e: DomElement)
      ensures children == e.children && classes == e.classes && display == e.display
      ensures parent == null
    {
      children := e.children;
      classes := e.classes;
      display := e.display;
      parent := null;
    }
  }

  /** A parent node, reduced to its list of element children. */
  class Container {
    var children: seq<DomElement>

    constructor (children: seq<DomElement>)
      ensures this.children == children
    {
      this.children := children;
    }
  }

  /** `parent.insertBefore(x, ref)`: `x` is placed immediately before `ref`. */
  function InsertBefore(s: seq<DomElement>, x: DomElement, ref: DomElement): (r: seq<DomElement>)
    requires ref in s
    ensures |r| == |s| + 1
    ensures exists i :: 0 <= i < |s| && s[i] == ref && r == s[..i] + [x, ref] + s[i + 1..]
  {
    var i := IndexOf(s, ref);
    var r := s[..i] + [x] + s[i..];
    assert r == s[..i] + [x, ref] + s[i + 1..] by {
      assert s[i..] == [ref] + s[i + 1..];
    }
    r
  }

  /** `parent.removeChild(x)`: the first occurrence of `x` is dropped. */
  function RemoveChild(s: seq<DomElement>, x: DomElement): (r: seq<DomElement>)
    requires x in s
    ensures |r| == |s| - 1
    ensures exists i :: 0 <= i < |s| && s[i] == x && x !in s[..i] && r == s[..i] + s[i + 1..]
  {
    var i := IndexOf(s, x);
    s[..i] + s[i + 1..]
  }

  /** Inserting a node that was not among the children and then removing it again leaves the child list as it was. */
  lemma InsertThenRemove(s: seq<DomElement>, x: DomElement, ref: DomElement)
    requires ref in s && x !in s
    ensures x in InsertBefore(s, x, ref)
    ensures RemoveChild(InsertBefore(s, x, ref), x) == s
  {
    var i := IndexOf(s, ref);
    var r := InsertBefore(s, x, ref);
    assert r == s[..i] + [x] + s[i..];
    assert r[i] == x;
    assert x !in r[..i] by { assert r[..i] == s[..i]; }
    assert IndexOf(r, x) == i;
    assert r[..i] + r[i + 1..] == s[..i] + s[i..];
    assert s[..i] + s[i..] == s;
  }
}
