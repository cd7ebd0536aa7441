/** The stylesheet shared by both note models: `read_css` (markdown_anki_decks/cli.py). */
module Styles {
  import opened Wrappers

  /** A frontmatter value: one string, or a YAML list of strings. */
  datatype MetaValue = Scalar(text: string) | Items(items: seq<string>)

  /** The three stylesheets shipped with the package, placed before the user's stylesheets in the output. */
  datatype Bundled = Bundled(markdown: string, pygments: string, pygmentsDark: string)

  const CssKey := "css"

  /** `sep.join(xs)`. */
  function Join(sep: string, xs: seq<string>): string
  {
    if xs == [] then ""
    else if |xs| == 1 then xs[0]
    else xs[0] + sep + Join(sep, xs[1..])
  }

  /** `s.split(c)`: the pieces between occurrences of `c`; never empty. */
  function Split(s: string, c: char): (parts: seq<string>)
    ensures |parts| > 0
  {
    if s == [] then [""]
    else
      var rest := Split(s[1..], c);
      if s[0] == c then [""] + rest else [[s[0]] + rest[0]] + rest[1..]
  }

  lemma {:induction false} SplitNoSeparator(a: string, c: char)
    requires c !in a
    ensures Split(a, c) == [a]
  {
    if a != [] {
      SplitNoSeparator(a[1..], c);
      assert [a[0]] + a[1..] == a;
    }
  }

  lemma {:induction false} SplitFirstSeparator(a: string, c: char, b: string)
    requires c !in a
    ensures Split(a + [c] + b, c) == [a] + Split(b, c)
  {
    if a == [] {
      assert ([c] + b)[1..] == b;
    } else {
      var s := a + [c] + b;
      assert s[0] == a[0];
      assert s[1..] == a[1..] + [c] + b;
      SplitFirstSeparator(a[1..], c, b);
      assert [a[0]] + a[1..] == a;
    }
  }

  /** Splitting a join on a separator that no piece contains gives the pieces back. */
  lemma {:induction false} SplitJoin(xs: seq<string>, c: char)
    requires |xs| > 0
    requires forall i :: 0 <= i < |xs| ==> c !in xs[i]
    ensures Split(Join([c], xs), c) == xs
  {
    if |xs| == 1 {
      SplitNoSeparator(xs[0], c);
    } else {
      SplitJoin(xs[1..], c);
      SplitFirstSeparator(xs[0], c, Join([c], xs[1..]));
      assert [xs[0]] + xs[1..] == xs;
    }
  }

  /** The user stylesheets named by the frontmatter; a single path counts as a one-element list. */
  function CssPaths(metadata: map<string, MetaValue>): seq<string>
  {
    if CssKey !in metadata then []
    else
      match metadata[CssKey]
      case Scalar(path) => [path]
      case Items(paths) => paths
  }

  /** Reads every path in order, stopping at the first one that cannot be read.
      `read` resolves a path against the document's directory. */
  function ReadEach(read: string -> Option<string>, paths: seq<string>): (r: Result<seq<string>, string>)
    ensures r.Success? <==> forall i :: 0 <= i < |paths| ==> read(paths[i]).Some?
    ensures r.Success? ==>
      && |r.value| == |paths|
      && forall i :: 0 <= i < |paths| ==> r.value[i] == read(paths[i]).value
    ensures r.Failure? ==>
      exists i :: && 0 <= i < |paths| && r.error == paths[i] && read(paths[i]).None?
                  && forall j :: 0 <= j < i ==> read(paths[j]).Some?
  {
    if paths == [] then Success([])
    else if read(paths[0]).None? then Failure(paths[0])
    else
      match ReadEach(read, paths[1..])
      case Failure(p) =>
        assert forall j :: 0 < j < |paths| ==> paths[j] == paths[1..][j - 1];
        Failure(p)
      case Success(rest) =>
        assert forall j :: 0 < j < |paths| ==> paths[j] == paths[1..][j - 1];
        Success([read(paths[0]).value] + rest)
  }

  /** `read_css`: the bundled base, light and dark sheets, then the user sheets in
      frontmatter order, all joined by newlines. An unreadable user sheet aborts with its path. */
  function ReadCss(bundled: Bundled, metadata: map<string, MetaValue>, read: string -> Option<string>)
    : (r: Result<string, string>)
    ensures var paths := CssPaths(metadata);
      r.Success? <==> forall i :: 0 <= i < |paths| ==> read(paths[i]).Some?
    ensures r.Failure? ==> r.error in CssPaths(metadata) && read(r.error).None?
    ensures r.Success? ==>
      r.value == bundled.markdown + "\n" + bundled.pygments + "\n" + bundled.pygmentsDark + "\n"
        + Join("\n", ReadEach(read, CssPaths(metadata)).value)
  {
    var user :- ReadEach(read, CssPaths(metadata));
    Success(bundled.markdown + "\n" + bundled.pygments + "\n" + bundled.pygmentsDark + "\n" + Join("\n", user))
  }

  /** A scalar `css` entry is read exactly as the one-element list holding it. */
  lemma ScalarCssIsSingleton(bundled: Bundled, metadata: map<string, MetaValue>, read: string -> Option<string>, path: string)
    ensures ReadCss(bundled, metadata[CssKey := Scalar(path)], read)
         == ReadCss(bundled, metadata[CssKey := Items([path])], read)
  {
  }

  /** Without a `css` entry only the bundled sheets are used, followed by a trailing newline. */
  lemma NoUserCss(bundled: Bundled, metadata: map<string, MetaValue>, read: string -> Option<string>)
    requires CssKey !in metadata
    ensures ReadCss(bundled, metadata, read)
         == Success(bundled.markdown + "\n" + bundled.pygments + "\n" + bundled.pygmentsDark + "\n")
  {
    var base := bundled.markdown + "\n" + bundled.pygments + "\n" + bundled.pygmentsDark + "\n";
    assert ReadEach(read, CssPaths(metadata)) == Success([]);
    assert base + Join("\n", []) == base;
  }

  /** Byte order of the merged stylesheet: when no sheet contains a newline, splitting the
      result on newlines gives back base, light, dark and then each user sheet in order
      (or one empty piece when there is no user sheet). */
  lemma StylesheetOrder(bundled: Bundled, metadata: map<string, MetaValue>, read: string -> Option<string>)
    requires ReadCss(bundled, metadata, read).Success?
    requires '\n' !in bundled.markdown && '\n' !in bundled.pygments && '\n' !in bundled.pygmentsDark
    requires forall p :: p in CssPaths(metadata) && read(p).Some? ==> '\n' !in read(p).value
    ensures var user := ReadEach(read, CssPaths(metadata)).value;
      Split(ReadCss(bundled, metadata, read).value, '\n')
        == [bundled.markdown, bundled.pygments, bundled.pygmentsDark] + (if user == [] then [""] else user)
  {
    var paths := CssPaths(metadata);
    var user := ReadEach(read, paths).value;
    var pieces := [bundled.markdown, bundled.pygments, bundled.pygmentsDark] + (if user == [] then [""] else user);
    assert forall i :: 0 <= i < |user| ==> '\n' !in user[i] by {
      forall i | 0 <= i < |user| ensures '\n' !in user[i] {
        assert paths[i] in paths;
      }
    }
    assert Join("\n", pieces) == ReadCss(bundled, metadata, read).value by {
      var tail := if user == [] then [""] else user;
      var p1 := [bundled.pygments, bundled.pygmentsDark] + tail;
      var p2 := [bundled.pygmentsDark] + tail;
      assert pieces[1..] == p1 && p1[1..] == p2 && p2[1..] == tail;
      assert Join("\n", p2) == bundled.pygmentsDark + "\n" + Join("\n", tail);
      assert Join("\n", p1) == bundled.pygments + "\n" + Join("\n", p2);
      assert Join("\n", pieces) == bundled.markdown + "\n" + Join("\n", p1);
      assert Join("\n", tail) == Join("\n", user);
    }
    SplitJoin(pieces, '\n');
  }
}
