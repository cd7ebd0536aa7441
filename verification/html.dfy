/** The rendered document as a tree of parsed HTML nodes, and the queries the
    card builder asks of it (markdown_anki_decks/cli.py). */
module Html {
  import opened Wrappers

  /** The class BeautifulSoup gives a string when it parses it: a plain string, or the
      special string type of the nearest enclosing string container (`script`, `style`,
      `template`, `rt`, `rp`), named here by that container's tag. */
  datatype StringKind = Plain | Contained(container: string)

  /** One node of the parsed HTML: a tag with its attributes (name to value) and
      children, a run of text with the string type it was parsed as, or a comment. */
  datatype Node =
    | Element(name: string, attrs: map<string, string>, children: seq<Node>)
    | Text(text: string, kind: StringKind)
    | Comment(text: string)

  /** The three ways a root-level node can be read by the segmenter. */
  datatype Kind = Heading | MarkedQuestion | Other

  const QuestionTag := "h2"
  const QuestionAttribute := "data-question"

  function Classify(n: Node): Kind
  {
    match n
    case Element(name, attrs, _) =>
      if name == QuestionTag then Heading
      else if QuestionAttribute in attrs then MarkedQuestion
      else Other
    case _ => Other
  }

  /** `is_question_tag`: an `h2`, or any tag carrying `data-question`; text is never a question. */
  predicate IsQuestion(n: Node)
    ensures IsQuestion(n) <==> n.Element? && (n.name == "h2" || "data-question" in n.attrs)
  {
    Classify(n) != Other
  }

  /** No comment node anywhere in the forest. */
  ghost predicate CommentFree(ns: seq<Node>)
  {
    forall i :: 0 <= i < |ns| ==>
      !ns[i].Comment? && (ns[i].Element? ==> CommentFree(ns[i].children))
  }

  /** The forest with every comment removed, at every depth; all other nodes keep their order. */
  function StripComments(ns: seq<Node>): (r: seq<Node>)
    ensures CommentFree(r)
    ensures |r| <= |ns|
  {
    if ns == [] then []
    else
      var rest := StripComments(ns[1..]);
      match ns[0]
      case Comment(_) => rest
      case Text(t, k) => [Text(t, k)] + rest
      case Element(name, attrs, cs) => [Element(name, attrs, StripComments(cs))] + rest
  }

  /** Removing comments from a comment-free forest changes nothing. */
  lemma {:induction false} StripCommentsIdempotent(ns: seq<Node>)
    requires CommentFree(ns)
    ensures StripComments(ns) == ns
  {
    if ns != [] {
      assert CommentFree(ns[1..]) by {
        forall i | 0 <= i < |ns[1..]|
          ensures !ns[1..][i].Comment? && (ns[1..][i].Element? ==> CommentFree(ns[1..][i].children))
        {
          assert ns[1..][i] == ns[i + 1];
        }
      }
      StripCommentsIdempotent(ns[1..]);
      match ns[0]
      case Text(_, _) =>
      case Element(_, _, cs) =>
        StripCommentsIdempotent(cs);
    }
  }

  /** Tags whose strings BeautifulSoup stores as special string types (script,
      stylesheet, template and ruby annotation strings). */
  const HiddenContainers: set<string> := {"script", "style", "template", "rt", "rp"}

  /** The string type a parser gives text directly inside a tag named `name`, when the
      text around the tag has type `outer`: a container imposes its own type, any other
      tag passes the outer one through. */
  function KindWithin(name: string, outer: StringKind): StringKind
  {
    if name in HiddenContainers then Contained(name) else outer
  }

  /** Every string in the forest carries the type the parser gives it: that of its
      nearest enclosing container, or `outer` when there is none below the forest's root. */
  ghost predicate ParsedKinds(ns: seq<Node>, outer: StringKind)
  {
    forall i :: 0 <= i < |ns| ==>
      && (ns[i].Text? ==> ns[i].kind == outer)
      && (ns[i].Element? ==> ParsedKinds(ns[i].children, KindWithin(ns[i].name, outer)))
  }

  /** The strings of type `k` at any depth of the forest, in document order; comments
      and strings of other types are skipped. */
  function StringsOfKind(ns: seq<Node>, k: StringKind): string
  {
    if ns == [] then ""
    else
      match ns[0]
      case Element(_, _, cs) => StringsOfKind(cs, k) + StringsOfKind(ns[1..], k)
      case Text(t, tk) => (if tk == k then t else "") + StringsOfKind(ns[1..], k)
      case Comment(_) => StringsOfKind(ns[1..], k)
  }

  /** `tag.get_text()` (and `tag.text`): the strings below the tag whose type is the one
      the tag is interested in, its own container type for a container and plain strings
      for every other tag. */
  function GetText(n: Node): (r: string)
    ensures n.Element? && n.name !in HiddenContainers ==> r == StringsOfKind(n.children, Plain)
    ensures n.Element? && n.name in HiddenContainers ==> r == StringsOfKind(n.children, Contained(n.name))
    ensures n.Element? && n.name !in HiddenContainers && ParsedKinds(n.children, Plain) ==> r == VisibleText(n.children)
  {
    assert n.Element? && ParsedKinds(n.children, Plain) ==> StringsOfKind(n.children, Plain) == VisibleText(n.children) by {
      if n.Element? && ParsedKinds(n.children, Plain) {
        PlainStringsAreVisibleText(n.children);
      }
    }
    match n
    case Element(name, _, cs) => StringsOfKind(cs, KindWithin(name, Plain))
    case Text(t, _) => t
    case Comment(_) => ""
  }

  /** Reference reading of the text a reader sees: every text node in document order,
      skipping comments and everything inside a container. */
  function VisibleText(ns: seq<Node>): string
  {
    if ns == [] then ""
    else
      match ns[0]
      case Element(name, _, cs) =>
        (if name in HiddenContainers then "" else VisibleText(cs)) + VisibleText(ns[1..])
      case Text(t, _) => t + VisibleText(ns[1..])
      case Comment(_) => VisibleText(ns[1..])
  }

  /** The strings of a forest are the strings of its parts, in order. */
  lemma {:induction false} StringsOfKindConcat(a: seq<Node>, b: seq<Node>, k: StringKind)
    ensures StringsOfKind(a + b, k) == StringsOfKind(a, k) + StringsOfKind(b, k)
  {
    if a != [] {
      assert (a + b)[0] == a[0];
      assert (a + b)[1..] == a[1..] + b;
      StringsOfKindConcat(a[1..], b, k);
    } else {
      assert a + b == b;
    }
  }

  /** The rest of a forest whose strings carry their parsed types does too. */
  lemma ParsedKindsTail(ns: seq<Node>, outer: StringKind)
    requires ns != [] && ParsedKinds(ns, outer)
    ensures ParsedKinds(ns[1..], outer)
  {
    forall i | 0 <= i < |ns[1..]|
      ensures ns[1..][i].Text? ==> ns[1..][i].kind == outer
      ensures ns[1..][i].Element? ==> ParsedKinds(ns[1..][i].children, KindWithin(ns[1..][i].name, outer))
    {
      assert ns[1..][i] == ns[i + 1];
    }
  }

  /** Below a container no string is plain. */
  lemma {:induction false} ContainedHasNoPlainText(ns: seq<Node>, c: string)
    requires ParsedKinds(ns, Contained(c))
    ensures StringsOfKind(ns, Plain) == ""
  {
    if ns != [] {
      ParsedKindsTail(ns, Contained(c));
      ContainedHasNoPlainText(ns[1..], c);
      match ns[0]
      case Element(name, _, cs) =>
        ContainedHasNoPlainText(cs, KindWithin(name, Contained(c)).container);
      case Text(_, _) =>
      case Comment(_) =>
    }
  }

  /** Outside every container, `get_text()` reads exactly the visible text: all text
      nodes except those inside a container. */
  lemma {:induction false} PlainStringsAreVisibleText(ns: seq<Node>)
    requires ParsedKinds(ns, Plain)
    ensures StringsOfKind(ns, Plain) == VisibleText(ns)
  {
    if ns != [] {
      ParsedKindsTail(ns, Plain);
      PlainStringsAreVisibleText(ns[1..]);
      match ns[0]
      case Element(name, _, cs) =>
        if name in HiddenContainers {
          ContainedHasNoPlainText(cs, name);
        } else {
          PlainStringsAreVisibleText(cs);
        }
      case Text(_, _) =>
      case Comment(_) =>
    }
  }

  /** A non-container tag placed directly inside container `c` has no text of its own:
      every string below it was typed by `c`, so its `get_text()` is empty, while the
      container's `get_text()` returns those strings. So `<template><h1>Draft</h1></template>`
      gives the `h1` no text. */
  lemma ContainedTextSkipped(name: string, c: string, attrs: map<string, string>,
                             outerAttrs: map<string, string>, cs: seq<Node>)
    requires c in HiddenContainers && name !in HiddenContainers
    requires ParsedKinds(cs, Contained(c))
    ensures GetText(Element(name, attrs, cs)) == ""
    ensures GetText(Element(c, outerAttrs, [Element(name, attrs, cs)])) == StringsOfKind(cs, Contained(c))
  {
    ContainedHasNoPlainText(cs, c);
    var outer := [Element(name, attrs, cs)];
    assert outer[1..] == [];
    assert StringsOfKind(outer, Contained(c)) == StringsOfKind(cs, Contained(c)) + "";
  }

  /** Stripping comments never changes the strings of any type in a forest. */
  lemma {:induction false} StripCommentsKeepsText(ns: seq<Node>, k: StringKind)
    ensures StringsOfKind(StripComments(ns), k) == StringsOfKind(ns, k)
  {
    if ns != [] {
      StripCommentsKeepsText(ns[1..], k);
      var rest := StripComments(ns[1..]);
      match ns[0]
      case Comment(_) =>
      case Text(t, tk) =>
        assert ([Text(t, tk)] + rest)[1..] == rest;
      case Element(name, attrs, cs) =>
        StripCommentsKeepsText(cs, k);
        assert ([Element(name, attrs, StripComments(cs))] + rest)[1..] == rest;
    }
  }

  /** The root-level nodes of a forest that are not comments, in order. */
  function NonComments(ns: seq<Node>): seq<Node>
  {
    if ns == [] then []
    else if ns[0].Comment? then NonComments(ns[1..])
    else [ns[0]] + NonComments(ns[1..])
  }

  /** Two nodes agree apart from their children: same tag name and attributes, or the same text. */
  predicate SameHead(a: Node, b: Node)
  {
    match (a, b)
    case (Element(n, at, _), Element(m, bt, _)) => n == m && at == bt
    case (Text(s, j), Text(t, k)) => s == t && j == k
    case (Comment(s), Comment(t)) => s == t
    case _ => false
  }

  /** Stripping keeps every non-comment root node, in order, with its name, attributes
      or text unchanged, and strips its children the same way. */
  lemma {:induction false} StripCommentsKeepsNodes(ns: seq<Node>)
    ensures |StripComments(ns)| == |NonComments(ns)|
    ensures forall i :: 0 <= i < |StripComments(ns)| ==>
      && SameHead(NonComments(ns)[i], StripComments(ns)[i])
      && (StripComments(ns)[i].Element? ==>
            StripComments(ns)[i].children == StripComments(NonComments(ns)[i].children))
  {
    if ns != [] {
      StripCommentsKeepsNodes(ns[1..]);
      var r := StripComments(ns);
      var rest := StripComments(ns[1..]);
      var keep := NonComments(ns[1..]);
      if !ns[0].Comment? {
        assert NonComments(ns) == [ns[0]] + keep;
        forall i | 1 <= i < |r|
          ensures SameHead(NonComments(ns)[i], r[i])
          ensures r[i].Element? ==> r[i].children == StripComments(NonComments(ns)[i].children)
        {
          assert r[i] == rest[i - 1];
          assert NonComments(ns)[i] == keep[i - 1];
        }
      }
    }
  }

  /** An element named `tag`. */
  predicate IsNamed(n: Node, tag: string)
  {
    n.Element? && n.name == tag
  }

  /** The forest's nodes in document (pre-)order: each node, then its descendants, then its later siblings. */
  ghost function Preorder(ns: seq<Node>): seq<Node>
  {
    if ns == [] then []
    else [ns[0]] + (if ns[0].Element? then Preorder(ns[0].children) else []) + Preorder(ns[1..])
  }

  /** Position `i` holds an element named `tag`, and no earlier position does. */
  ghost predicate FirstNamedAt(s: seq<Node>, tag: string, i: int)
  {
    && 0 <= i < |s|
    && IsNamed(s[i], tag)
    && forall j :: 0 <= j < i ==> !IsNamed(s[j], tag)
  }

  /** Linear search of a node sequence for the first element named `tag`. */
  function FindNamed(s: seq<Node>, tag: string): (r: Option<Node>)
    ensures r.None? <==> forall i :: 0 <= i < |s| ==> !IsNamed(s[i], tag)
    ensures r.Some? ==> exists i :: FirstNamedAt(s, tag, i) && s[i] == r.value
  {
    if s == [] then None
    else if IsNamed(s[0], tag) then
      assert FirstNamedAt(s, tag, 0);
      Some(s[0])
    else
      var r := FindNamed(s[1..], tag);
      assert forall i :: 1 <= i < |s| ==> s[i] == s[1..][i - 1];
      assert r.Some? ==> exists i :: FirstNamedAt(s, tag, i) && s[i] == r.value by {
        if r.Some? {
          var i :| FirstNamedAt(s[1..], tag, i) && s[1..][i] == r.value;
          assert FirstNamedAt(s, tag, i + 1);
        }
      }
      r
  }

  /** The search returns the node at the first position holding a match. */
  lemma FindNamedFirst(s: seq<Node>, tag: string, i: int)
    requires FirstNamedAt(s, tag, i)
    ensures FindNamed(s, tag) == Some(s[i])
  {
    var r := FindNamed(s, tag);
    var j :| FirstNamedAt(s, tag, j) && s[j] == r.value;
    assert !(j < i) && !(i < j);
  }

  /** Searching a concatenation finds the first part's match, if any, else the second's. */
  lemma {:induction false} FindNamedAppend(a: seq<Node>, b: seq<Node>, tag: string)
    ensures FindNamed(a + b, tag) == if FindNamed(a, tag).Some? then FindNamed(a, tag) else FindNamed(b, tag)
  {
    if a != [] {
      assert (a + b)[0] == a[0];
      assert (a + b)[1..] == a[1..] + b;
      FindNamedAppend(a[1..], b, tag);
    } else {
      assert a + b == b;
    }
  }

  /** `soup.h1`-style lookup: the first element named `tag`, searching each node before
      its descendants and its descendants before its later siblings. */
  function FirstNamed(ns: seq<Node>, tag: string): (r: Option<Node>)
    ensures r.Some? ==> IsNamed(r.value, tag)
  {
    if ns == [] then None
    else
      var later := FirstNamed(ns[1..], tag);
      match ns[0]
      case Element(name, _, cs) =>
        if name == tag then Some(ns[0])
        else
          var inner := FirstNamed(cs, tag);
          if inner.Some? then inner else later
      case _ => later
  }

  /** `FirstNamed` returns exactly the first element named `tag` in document order. */
  lemma {:induction false} FirstNamedInPreorder(ns: seq<Node>, tag: string)
    ensures FirstNamed(ns, tag) == FindNamed(Preorder(ns), tag)
  {
    if ns != [] {
      FirstNamedInPreorder(ns[1..], tag);
      var below := if ns[0].Element? then Preorder(ns[0].children) else [];
      if ns[0].Element? {
        FirstNamedInPreorder(ns[0].children, tag);
      }
      PreorderStep(ns, tag);
      FindNamedAppend(below, Preorder(ns[1..]), tag);
    }
  }

  /** One step of the search: the first node itself, then the rest of the pre-order. */
  lemma PreorderStep(ns: seq<Node>, tag: string)
    requires ns != []
    ensures var below := if ns[0].Element? then Preorder(ns[0].children) else [];
      FindNamed(Preorder(ns), tag)
      == if IsNamed(ns[0], tag) then Some(ns[0]) else FindNamed(below + Preorder(ns[1..]), tag)
  {
    var below := if ns[0].Element? then Preorder(ns[0].children) else [];
    var tail := below + Preorder(ns[1..]);
    assert Preorder(ns) == [ns[0]] + tail;
    assert ([ns[0]] + tail)[1..] == tail;
  }
}
