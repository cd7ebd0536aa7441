/** Stable identifiers and file names: `integer_hash`, `is_markdown_file`, and the
    `Path(file).stem` used for deck titles and package names (markdown_anki_decks/cli.py). */
module Identity {
  import opened Wrappers

  /** `1 << 31`: Anki ids are kept within 31 bits. */
  const HashModulus: nat := 0x8000_0000

  /** `integer_hash`: the SHA-256 digest of the UTF-8 bytes of `s`, read as a hexadecimal
      integer, reduced modulo 2^31. The digest itself is the parameter `digest`. */
  function IntegerHash(digest: string -> nat, s: string): (h: nat)
    ensures h < HashModulus
    ensures digest(s) < HashModulus ==> h == digest(s)
    ensures (digest(s) - h) % HashModulus == 0
  {
    digest(s) % HashModulus
  }

  /** Ends with `suffix`. */
  predicate EndsWith(s: string, suffix: string)
  {
    |suffix| <= |s| && s[|s| - |suffix|..] == suffix
  }

  /** `is_markdown_file`: a case-sensitive `.md` suffix test on the file name. */
  predicate IsMarkdownFile(name: string)
  {
    EndsWith(name, ".md")
  }

  /** Any name followed by `.md` is a markdown file, and one ending otherwise is not. */
  lemma MarkdownFileExactly(base: string, name: string)
    ensures IsMarkdownFile(base + ".md")
    ensures IsMarkdownFile(name) <==> exists b :: b + ".md" == name
  {
    assert (base + ".md")[|base|..] == ".md";
    if IsMarkdownFile(name) {
      assert name[..|name| - 3] + ".md" == name;
    }
  }

  /** Position of the last `c` in `s` (`str.rfind`), if any. */
  function LastIndexOf(s: string, c: char): (r: Option<nat>)
    ensures r.Some? ==> r.value < |s| && s[r.value] == c
    ensures r.Some? ==> forall j :: r.value < j < |s| ==> s[j] != c
    ensures r.None? ==> forall j :: 0 <= j < |s| ==> s[j] != c
  {
    if s == [] then None
    else if s[|s| - 1] == c then Some(|s| - 1)
    else LastIndexOf(s[..|s| - 1], c)
  }

  /** `Path(path).name`: the last `/`-separated component. */
  function BaseName(path: string): (name: string)
    ensures '/' !in name
    ensures EndsWith(path, name)
  {
    match LastIndexOf(path, '/')
    case None => path
    case Some(i) => path[i + 1..]
  }

  /** `Path(path).stem`: the last component without its final suffix. A dot at the
      start or at the very end of the name does not start a suffix. */
  function Stem(path: string): (stem: string)
    ensures '/' !in stem
    ensures stem <= BaseName(path)
  {
    var name := BaseName(path);
    match LastIndexOf(name, '.')
    case Some(i) =>
      if 0 < i < |name| - 1 then name[..i] else name
    case None => name
  }

  /** The stem of a markdown file is its name without `.md`, wherever the file lies. */
  lemma MarkdownStem(dir: string, name: string)
    requires '/' !in name && IsMarkdownFile(name) && |name| > 3
    ensures Stem(dir + "/" + name) == name[..|name| - 3]
    ensures Stem(name) == name[..|name| - 3]
  {
    BaseNameInDirectory(dir, name);
    assert BaseName(name) == name;
    assert name[|name| - 3] == '.' && name[|name| - 2] == 'm' && name[|name| - 1] == 'd';
    assert LastIndexOf(name, '.') == Some(|name| - 3);
  }

  /** A file name joined to a directory is found again as the last component. */
  lemma BaseNameInDirectory(dir: string, name: string)
    requires '/' !in name
    ensures BaseName(dir + "/" + name) == name
  {
    var path := dir + "/" + name;
    assert path[|dir|] == '/' && path[|dir| + 1..] == name;
    assert LastIndexOf(path, '/') == Some(|dir|);
  }

  /** A file named just `.md` keeps its whole name as stem: a leading dot starts no suffix. */
  lemma DotfileStem(dir: string)
    ensures Stem(dir + "/.md") == ".md"
  {
    BaseNameInDirectory(dir, ".md");
    assert dir + "/.md" == dir + "/" + ".md";
    assert LastIndexOf(".md", '.') == Some(0);
  }

  /** `f"{Path(file).stem}.apkg"`: the package written for a source file. */
  function PackageFileName(file: string): (r: string)
    ensures EndsWith(r, ".apkg")
    ensures '/' !in r
  {
    var r := Stem(file) + ".apkg";
    assert r[|r| - 5..] == ".apkg";
    r
  }

  /** The package for a markdown file is named after the file without its `.md`, and
      the directory the walk found the file in plays no part in the name. */
  lemma PackageNamedAfterStem(dir: string, name: string)
    requires '/' !in name && IsMarkdownFile(name) && |name| > 3
    ensures PackageFileName(name) == name[..|name| - 3] + ".apkg"
    ensures PackageFileName(dir + "/" + name) == PackageFileName(name)
  {
    MarkdownStem(dir, name);
  }

  /** The files of one directory that `convert` processes, in walk order. */
  function MarkdownFiles(files: seq<string>): (r: seq<string>)
    ensures forall f :: f in r <==> f in files && IsMarkdownFile(f)
    ensures |r| <= |files|
  {
    if files == [] then []
    else if IsMarkdownFile(files[0]) then [files[0]] + MarkdownFiles(files[1..])
    else MarkdownFiles(files[1..])
  }
}
