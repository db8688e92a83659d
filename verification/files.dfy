/** Which file names the linter treats as Markdown (md_lint.py:46-47): the
    final extension as `os.path.splitext` finds it, lower-cased, must be
    one of four. Paths are POSIX paths: '/' separates directories. */
module MarkdownFiles {
  import opened Wrappers
  import opened Text

  /** The part of a path after its last '/'. */
  function BaseName(path: string): (b: string)
    ensures '/' !in b
    ensures |b| <= |path| && b == path[|path| - |b|..]
  {
    match LastIndexOf(path, '/')
    case None => path
    case Some(s) => path[s + 1..]
  }

  predicate AllDots(s: string) {
    forall k :: 0 <= k < |s| ==> s[k] == '.'
  }

  /** The extension of a base name: from its last '.' on, or nothing when
      there is no '.' or only dots come before the last one (so ".md" and
      "..md" have none). */
  function SplitExt(b: string): (ext: string)
    ensures ext == [] || ext[0] == '.'
    ensures |ext| <= |b| && ext == b[|b| - |ext|..]
  {
    match LastIndexOf(b, '.')
    case None => ""
    case Some(d) => if AllDots(b[..d]) then "" else b[d..]
  }

  /** `os.path.splitext(path)[1]`: the extension of the base name. */
  function Extension(path: string): (ext: string)
    ensures ext == [] || ext[0] == '.'
    ensures '/' !in ext
  {
    var b := BaseName(path);
    var ext := SplitExt(b);
    assert forall k :: 0 <= k < |ext| ==> ext[k] == b[|b| - |ext| + k];
    ext
  }

  /** The four extensions md_lint.py accepts. */
  const MarkdownExtensions: set<string> := {".md", ".markdown", ".mdown", ".mkdn"}

  /** `is_markdown_file` (md_lint.py:46-47). */
  predicate IsMarkdownFile(path: string) {
    Lower(Extension(path)) in MarkdownExtensions
  }

  /** A directory part: empty, or ending in '/'. */
  predicate IsDir(dir: string) {
    dir == [] || dir[|dir| - 1] == '/'
  }

  /** `rfind` finds `c` at `i` when `c` does not occur after `i`. */
  lemma LastIndexAt(s: string, c: char, i: nat)
    requires i < |s| && s[i] == c
    requires forall k :: i < k < |s| ==> s[k] != c
    ensures LastIndexOf(s, c) == Some(i)
  {
    assert s[i] in s;
  }

  /** Behind a directory part, a name without '/' is the base name. */
  lemma BaseNameAfter(dir: string, name: string)
    requires IsDir(dir) && '/' !in name
    ensures BaseName(dir + name) == name
  {
    var p := dir + name;
    if dir == [] {
      assert p == name;
    } else {
      forall k | |dir| - 1 < k < |p|
        ensures p[k] != '/'
      {
        assert p[k] == name[k - |dir|];
      }
      LastIndexAt(p, '/', |dir| - 1);
      assert p[|dir|..] == name;
    }
  }

  /** In `stem + "." + e` with no '.' in `e`, the last '.' is the one after `stem`. */
  lemma LastDot(stem: string, e: string)
    requires '.' !in e
    ensures var name := stem + "." + e;
      LastIndexOf(name, '.') == Some(|stem|) && name[..|stem|] == stem && name[|stem|..] == "." + e
  {
    var name := stem + "." + e;
    forall k | |stem| < k < |name|
      ensures name[k] != '.'
    {
      assert name[k] == e[k - |stem| - 1];
    }
    LastIndexAt(name, '.', |stem|);
    assert name[..|stem|] == stem;
    assert name[|stem|..] == "." + e;
  }

  /** A name whose stem is not all dots has, as its extension, what follows
      its last '.'. */
  lemma ExtensionOf(dir: string, stem: string, e: string)
    requires IsDir(dir) && '/' !in stem && '/' !in e && '.' !in e
    requires !AllDots(stem)
    ensures Extension(dir + stem + "." + e) == "." + e
  {
    var name := stem + "." + e;
    assert dir + stem + "." + e == dir + name;
    assert '/' !in name;
    BaseNameAfter(dir, name);
    LastDot(stem, e);
  }

  /** A name without '.' has no extension. */
  lemma NoExtension(dir: string, name: string)
    requires IsDir(dir) && '/' !in name && '.' !in name
    ensures Extension(dir + name) == ""
  {
    BaseNameAfter(dir, name);
  }

  /** A name that is only dots before its last '.' (".md", "..md") has no
      extension either. */
  lemma DotsOnly(dir: string, stem: string, e: string)
    requires IsDir(dir) && '/' !in stem && '/' !in e && '.' !in e
    requires AllDots(stem)
    ensures Extension(dir + stem + "." + e) == ""
  {
    var name := stem + "." + e;
    assert dir + stem + "." + e == dir + name;
    assert '/' !in name;
    BaseNameAfter(dir, name);
    LastDot(stem, e);
  }

  /** With the leading '.' taken off, the accepted extensions are "md",
      "markdown", "mdown" and "mkdn". */
  lemma DotMember(l: string)
    ensures "." + l in MarkdownExtensions <==> l in {"md", "markdown", "mdown", "mkdn"}
  {
    assert ("." + l)[1..] == l;
    assert ".md"[1..] == "md" && ".markdown"[1..] == "markdown";
    assert ".mdown"[1..] == "mdown" && ".mkdn"[1..] == "mkdn";
    if l in {"md", "markdown", "mdown", "mkdn"} {
      assert "." + l in {"." + "md", "." + "markdown", "." + "mdown", "." + "mkdn"};
      assert "." + "md" == ".md" && "." + "markdown" == ".markdown";
      assert "." + "mdown" == ".mdown" && "." + "mkdn" == ".mkdn";
    }
  }

  lemma LowerDot(e: string)
    ensures Lower("." + e) == "." + Lower(e)
  {
    assert forall k :: 0 <= k < |e| ==> ("." + e)[k + 1] == e[k];
  }

  /** A file is a Markdown file exactly when what follows the last '.' of
      its name is "md", "markdown", "mdown" or "mkdn", in any mix of case,
      and something other than dots comes before that '.'. */
  lemma MarkdownName(dir: string, stem: string, e: string)
    requires IsDir(dir) && '/' !in stem && '/' !in e && '.' !in e
    ensures IsMarkdownFile(dir + stem + "." + e) <==>
      !AllDots(stem) && Lower(e) in {"md", "markdown", "mdown", "mkdn"}
  {
    if AllDots(stem) {
      DotsOnly(dir, stem, e);
      assert Lower("") == "";
    } else {
      ExtensionOf(dir, stem, e);
      LowerDot(e);
      DotMember(Lower(e));
    }
  }

  /** A name without '.' is never a Markdown file. */
  lemma NoExtensionRejected(dir: string, name: string)
    requires IsDir(dir) && '/' !in name && '.' !in name
    ensures !IsMarkdownFile(dir + name)
  {
    NoExtension(dir, name);
    assert Lower("") == "";
  }

  /** The names the test uses: "test", a '.', then the extension. */
  lemma TestName(e: string)
    requires '/' !in e && '.' !in e
    ensures IsMarkdownFile("test." + e) <==> Lower(e) in {"md", "markdown", "mdown", "mkdn"}
  {
    assert "" + "test" + "." + e == "test." + e;
    assert !AllDots("test") by {
      assert "test"[0] != '.';
    }
    MarkdownName("", "test", e);
  }

  // The cases of `test_is_markdown_file` (tests/test_md_lint.py:11-25).

  lemma TestMd()
    ensures IsMarkdownFile("test.md")
  {
    assert "test." + "md" == "test.md" && Lower("md") == "md";
    TestName("md");
  }

  lemma TestMarkdown()
    ensures IsMarkdownFile("test.markdown")
  {
    assert "test." + "markdown" == "test.markdown" && Lower("markdown") == "markdown";
    TestName("markdown");
  }

  lemma TestMdown()
    ensures IsMarkdownFile("test.mdown")
  {
    assert "test." + "mdown" == "test.mdown" && Lower("mdown") == "mdown";
    TestName("mdown");
  }

  lemma TestMkdn()
    ensures IsMarkdownFile("test.mkdn")
  {
    assert "test." + "mkdn" == "test.mkdn" && Lower("mkdn") == "mkdn";
    TestName("mkdn");
  }

  lemma TestTxt()
    ensures !IsMarkdownFile("test.txt")
  {
    assert "test." + "txt" == "test.txt" && Lower("txt") == "txt";
    TestName("txt");
  }

  lemma TestPy()
    ensures !IsMarkdownFile("test.py")
  {
    assert "test." + "py" == "test.py" && Lower("py") == "py";
    TestName("py");
  }

  lemma TestUpperMd()
    ensures IsMarkdownFile("test.MD")
  {
    assert "test." + "MD" == "test.MD" && Lower("MD") == "md";
    TestName("MD");
  }

  lemma TestMixedMarkdown()
    ensures IsMarkdownFile("test.Markdown")
  {
    assert "test." + "Markdown" == "test.Markdown" && Lower("Markdown") == "markdown";
    TestName("Markdown");
  }

  lemma TestNoExtension()
    ensures !IsMarkdownFile("test")
  {
    assert "" + "test" == "test";
    NoExtensionRejected("", "test");
  }
}
