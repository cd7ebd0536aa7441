/** Splitting the root-level nodes of a rendered document into question/answer
    fragments (the note loop of `parse_markdown`, markdown_anki_decks/cli.py). */
module Segment {
  import opened Html

  /** A question node and the run of root-level siblings that answers it. */
  datatype Fragment = Fragment(question: Node, run: seq<Node>)

  /** The answer node handed to the note: the run wrapped in a `section`, empty when the run is. */
  function Answer(f: Fragment): (a: Node)
    ensures a.Element? && a.name == "section" && a.attrs == map[]
    ensures a.children == f.run
    ensures !IsQuestion(a)
  {
    Element("section", map[], f.run)
  }

  /** `takewhile(not is_question_tag, siblings)`: the longest prefix holding no question. */
  function AnswerRun(rest: seq<Node>): (run: seq<Node>)
    ensures run <= rest
    ensures forall i :: 0 <= i < |run| ==> !IsQuestion(run[i])
    ensures |run| < |rest| ==> IsQuestion(rest[|run|])
  {
    if rest == [] || IsQuestion(rest[0]) then [] else [rest[0]] + AnswerRun(rest[1..])
  }

  /** `soup.find_all(is_question_tag, recursive=False)`: the root-level questions, in order. */
  function Questions(roots: seq<Node>): (qs: seq<Node>)
    ensures |qs| <= |roots|
  {
    if roots == [] then []
    else if IsQuestion(roots[0]) then [roots[0]] + Questions(roots[1..])
    else Questions(roots[1..])
  }

  /** Only root-level questions are picked, and every one of them is. */
  lemma {:induction false} QuestionsAreRootQuestions(roots: seq<Node>)
    ensures forall k :: 0 <= k < |Questions(roots)| ==>
      IsQuestion(Questions(roots)[k]) && Questions(roots)[k] in roots
    ensures forall i :: 0 <= i < |roots| && IsQuestion(roots[i]) ==> roots[i] in Questions(roots)
  {
    if roots != [] {
      QuestionsAreRootQuestions(roots[1..]);
      assert forall i :: 1 <= i < |roots| ==> roots[i] == roots[1..][i - 1];
    }
  }

  /** Comments are never questions, so stripping them keeps the root-level questions:
      as many, in the same order, each with its name and attributes unchanged. */
  lemma {:induction false} StripCommentsKeepsQuestions(roots: seq<Node>)
    ensures |Questions(StripComments(roots))| == |Questions(roots)|
    ensures forall k :: 0 <= k < |Questions(roots)| ==>
      SameHead(Questions(roots)[k], Questions(StripComments(roots))[k])
  {
    if roots != [] {
      StripCommentsKeepsQuestions(roots[1..]);
      var rest := StripComments(roots[1..]);
      match roots[0]
      case Comment(_) =>
      case Text(t, tk) =>
        assert StripComments(roots) == [Text(t, tk)] + rest;
        assert Questions(StripComments(roots)) == Questions(rest) by {
          assert ([Text(t, tk)] + rest)[1..] == rest;
        }
      case Element(name, attrs, cs) =>
        var head := Element(name, attrs, StripComments(cs));
        assert StripComments(roots) == [head] + rest;
        assert ([head] + rest)[1..] == rest;
        assert IsQuestion(head) == IsQuestion(roots[0]);
    }
  }

  /** One fragment per root-level question, in document order, each answered by the
      maximal question-free run of siblings that follows it. */
  function Segments(roots: seq<Node>): (fs: seq<Fragment>)
    ensures |fs| == |Questions(roots)|
  {
    if roots == [] then []
    else
      var later := Segments(roots[1..]);
      if IsQuestion(roots[0]) then [Fragment(roots[0], AnswerRun(roots[1..]))] + later
      else later
  }

  /** The `k`-th fragment is asked by the `k`-th root-level question, and no run holds a question. */
  lemma {:induction false} SegmentsFollowQuestions(roots: seq<Node>)
    ensures forall k :: 0 <= k < |Segments(roots)| ==> Segments(roots)[k].question == Questions(roots)[k]
    ensures forall k, i :: 0 <= k < |Segments(roots)| && 0 <= i < |Segments(roots)[k].run| ==>
      !IsQuestion(Segments(roots)[k].run[i])
  {
    if roots != [] {
      SegmentsFollowQuestions(roots[1..]);
    }
  }

  /** The nodes of the fragments laid end to end: each question followed by its run. */
  function Flatten(fs: seq<Fragment>): seq<Node>
  {
    if fs == [] then [] else [fs[0].question] + fs[0].run + Flatten(fs[1..])
  }

  lemma FlattenCons(f: Fragment, fs: seq<Fragment>)
    ensures Flatten([f] + fs) == [f.question] + f.run + Flatten(fs)
  {
    assert ([f] + fs)[1..] == fs;
  }

  /** One step of the scan: the first root either opens a fragment or is skipped. */
  lemma SegmentsStep(roots: seq<Node>)
    requires roots != []
    ensures IsQuestion(roots[0]) ==>
      && AnswerRun(roots) == []
      && Segments(roots) == [Fragment(roots[0], AnswerRun(roots[1..]))] + Segments(roots[1..])
    ensures !IsQuestion(roots[0]) ==>
      && AnswerRun(roots) == [roots[0]] + AnswerRun(roots[1..])
      && Segments(roots) == Segments(roots[1..])
  {
  }

  /** Completeness: the nodes before the first question, then every fragment in order,
      give back exactly the root-level nodes. No node is dropped, duplicated or moved. */
  lemma {:induction false} SegmentsPartition(roots: seq<Node>)
    ensures AnswerRun(roots) + Flatten(Segments(roots)) == roots
  {
    if roots != [] {
      var rest := roots[1..];
      SegmentsPartition(rest);
      SegmentsStep(roots);
      var pre, flat := AnswerRun(rest), Flatten(Segments(rest));
      if IsQuestion(roots[0]) {
        FlattenCons(Fragment(roots[0], pre), Segments(rest));
      }
      assert [roots[0]] + rest == roots;
      Glue(AnswerRun(roots), Flatten(Segments(roots)), roots[0], pre, flat, roots);
    }
  }

  /** Sequence bookkeeping for one step of SegmentsPartition, kept free of the definitions. */
  lemma Glue<T>(a: seq<T>, f: seq<T>, x: T, pre: seq<T>, flat: seq<T>, whole: seq<T>)
    requires whole == [x] + (pre + flat)
    requires (a == [] && f == [x] + pre + flat) || (a == [x] + pre && f == flat)
    ensures a + f == whole
  {
  }

  /** The nodes before the first question belong to no fragment: a document with no
      question yields no fragment, and its preamble is the whole document. */
  lemma {:induction false} NoQuestionNoFragment(roots: seq<Node>)
    requires forall i :: 0 <= i < |roots| ==> !IsQuestion(roots[i])
    ensures Segments(roots) == []
    ensures AnswerRun(roots) == roots
  {
    if roots != [] {
      NoQuestionNoFragment(roots[1..]);
    }
  }

  /** Each fragment's question sits at some root position `i`, and its run is exactly
      the siblings from `i + 1` up to the next question or the end of the document. */
  lemma {:induction false} FragmentPosition(roots: seq<Node>, k: nat)
    requires k < |Segments(roots)|
    ensures exists i :: 0 <= i < |roots| && IsFragmentAt(roots, Segments(roots)[k], i)
  {
    var fs := Segments(roots);
    var rest := roots[1..];
    if IsQuestion(roots[0]) && k == 0 {
      assert fs[0] == Fragment(roots[0], AnswerRun(rest));
      assert IsFragmentAt(roots, fs[0], 0);
    } else {
      var k' := if IsQuestion(roots[0]) then k - 1 else k;
      assert fs[k] == Segments(rest)[k'] by {
        if IsQuestion(roots[0]) {
          assert fs == [Fragment(roots[0], AnswerRun(rest))] + Segments(rest);
        }
      }
      FragmentPosition(rest, k');
      var i :| 0 <= i < |rest| && IsFragmentAt(rest, fs[k], i);
      FragmentAtShift(roots, fs[k], i);
    }
  }

  lemma FragmentAtShift(roots: seq<Node>, f: Fragment, i: nat)
    requires 0 < |roots| && i < |roots| - 1
    requires IsFragmentAt(roots[1..], f, i)
    ensures IsFragmentAt(roots, f, i + 1)
  {
    assert roots[1..][i + 1..i + 1 + |f.run|] == roots[i + 2..i + 2 + |f.run|];
  }

  /** `f` is the fragment of the question at root position `i`: the question itself,
      then the maximal sibling run ending before the next question or the end. */
  ghost predicate IsFragmentAt(roots: seq<Node>, f: Fragment, i: nat)
    requires i < |roots|
  {
    var end := i + 1 + |f.run|;
    && roots[i] == f.question
    && IsQuestion(roots[i])
    && end <= |roots|
    && f.run == roots[i + 1..end]
    && (forall j :: i + 1 <= j < end ==> !IsQuestion(roots[j]))
    && (end == |roots| || IsQuestion(roots[end]))
  }
}
