/** The path classifiers of `app/Console/AppController.py`, over POSIX
    paths: `os.path.basename`, `os.path.splitext` and `str.lower`. */
module AppController {
  import opened Text

  /** `c_cpp_header_extensions` */
  const HeaderExtensions: seq<string> := [".h", ".hpp", ".c", ".cpp", ".cxx", ".hxx"]

  /** `s.rfind(c)`: the last index holding `c`, or -1. */
  function LastIndex(s: string, c: char): (r: int)
    ensures -1 <= r < |s|
    ensures r >= 0 ==> s[r] == c
    ensures forall i :: r < i < |s| ==> s[i] != c
  {
    if s == [] then -1
    else if s[|s| - 1] == c then |s| - 1
    else LastIndex(s[..|s| - 1], c)
  }

  /** `os.path.basename`: what follows the last `/`. */
  function Basename(p: string): (r: string)
    ensures '/' !in r
    ensures |r| <= |p| && r == p[|p| - |r|..]
    ensures |r| < |p| ==> p[|p| - |r| - 1] == '/'
  {
    p[LastIndex(p, '/') + 1..]
  }

  /** The test of `splitext`'s loop: some character of the file name
      before its last dot is not a dot. */
  predicate NamedBeforeDot(p: string, sep: int, dot: int)
    requires -1 <= sep < dot <= |p|
  {
    exists i :: sep + 1 <= i < dot && p[i] != '.'
  }

  /** Some character other than a dot comes before a dot in `name`. */
  predicate DotAfterName(name: string) {
    exists i, j :: 0 <= i < j < |name| && name[i] != '.' && name[j] == '.'
  }

  /** `os.path.splitext`: the extension runs from the last dot of the file
      name, unless the name is only dots up to there (`.bashrc`). */
  function SplitExt(p: string): (r: (string, string))
    ensures r.0 + r.1 == p
    ensures r.1 == [] || (r.1[0] == '.' && '/' !in r.1 && '.' !in r.1[1..])
  {
    var sep, dot := LastIndex(p, '/'), LastIndex(p, '.');
    if dot > sep && NamedBeforeDot(p, sep, dot) then
      assert '.' !in p[dot..][1..] && '/' !in p[dot..] by {
        assert forall i :: 0 <= i < |p[dot..]| ==> p[dot..][i] == p[dot + i];
      }
      (p[..dot], p[dot..])
    else (p, "")
  }

  /** A path has an extension exactly when its base name holds a dot after
      some other character. */
  lemma HasExtensionIff(p: string)
    ensures SplitExt(p).1 != [] <==> DotAfterName(Basename(p))
  {
    var sep, dot := LastIndex(p, '/'), LastIndex(p, '.');
    var b := Basename(p);
    assert b == p[sep + 1..];
    if dot > sep && NamedBeforeDot(p, sep, dot) {
      var i :| sep + 1 <= i < dot && p[i] != '.';
      assert b[i - sep - 1] == p[i] && b[dot - sep - 1] == p[dot];
      assert SplitExt(p).1 == p[dot..];
    } else {
      assert SplitExt(p).1 == [];
    }
  }

  /** `is_c_cpp_makefile`. A makefile's base name has eight characters and
      no dot. */
  predicate IsMakefile(path: string): (r: bool)
    ensures r ==> |Basename(path)| == 8 && '.' !in Basename(path)
  {
    var b := Basename(path);
    if Lower(b) == "makefile" then MakefileNameHasNoDot(b); true else false
  }

  lemma MakefileNameHasNoDot(b: string)
    requires Lower(b) == "makefile"
    ensures |b| == 8 && '.' !in b
  {
    NoDotInMakefile(Lower(b));
    NoDotBeforeLower(b);
  }

  /** A dot comes out of lower-casing only where one went in. */
  lemma NoDotBeforeLower(b: string)
    requires '.' !in Lower(b)
    ensures '.' !in b
  {
    forall i | 0 <= i < |b|
      ensures b[i] != '.'
    {
      assert Lower(b)[i] == LowerChar(b[i]) && Lower(b)[i] in Lower(b);
    }
  }

  lemma NoDotInMakefile(l: string)
    requires l == "makefile"
    ensures '.' !in l
  {
    assert l[0] != '.' && l[1] != '.' && l[2] != '.' && l[3] != '.';
    assert l[4] != '.' && l[5] != '.' && l[6] != '.' && l[7] != '.';
  }

  /** `is_c_cpp_header`. A header's extension is a dot and one to three
      characters. */
  predicate IsHeader(path: string): (r: bool)
    ensures r ==> 2 <= |SplitExt(path).1| <= 4 && SplitExt(path).1[0] == '.'
  {
    Lower(SplitExt(path).1) in HeaderExtensions
  }

  /** `is_c_cpp_source`, with the same list as the header test. */
  predicate IsSource(path: string): (r: bool)
    ensures r ==> 2 <= |SplitExt(path).1| <= 4 && SplitExt(path).1[0] == '.'
  {
    Lower(SplitExt(path).1) in HeaderExtensions
  }

  /** The source test therefore agrees with the header test on every path:
      `foo.c` counts as a header, and `foo.h` as a source. */
  lemma SourceIsHeader(path: string)
    ensures IsSource(path) <==> IsHeader(path)
  {
  }

  /** Lower-casing keeps dots and slashes where they are and puts nothing
      else there. */
  lemma LowerKeepsSeparators(c: char)
    ensures LowerChar(c) == '.' <==> c == '.'
    ensures LowerChar(c) == '/' <==> c == '/'
    ensures LowerChar(LowerChar(c)) == LowerChar(c)
  {
  }

  lemma {:induction false} LastIndexLower(s: string, c: char)
    requires c == '.' || c == '/'
    decreases |s|
    ensures LastIndex(Lower(s), c) == LastIndex(s, c)
  {
    if s != [] {
      LowerKeepsSeparators(s[|s| - 1]);
      assert Lower(s)[..|s| - 1] == Lower(s[..|s| - 1]);
      LastIndexLower(s[..|s| - 1], c);
    }
  }

  /** Splitting commutes with lower-casing. */
  lemma SplitExtLower(p: string)
    ensures SplitExt(Lower(p)).1 == Lower(SplitExt(p).1)
  {
    var l := Lower(p);
    LastIndexLower(p, '/');
    LastIndexLower(p, '.');
    var sep, dot := LastIndex(p, '/'), LastIndex(p, '.');
    forall i | 0 <= i < |p|
      ensures l[i] != '.' <==> p[i] != '.'
    {
      LowerKeepsSeparators(p[i]);
    }
    if dot > sep {
      assert NamedBeforeDot(l, sep, dot) <==> NamedBeforeDot(p, sep, dot);
      assert l[dot..] == Lower(p[dot..]);
    }
  }

  lemma {:induction false} LowerIdempotent(s: string)
    decreases |s|
    ensures Lower(Lower(s)) == Lower(s)
  {
    if s != [] {
      LowerKeepsSeparators(s[0]);
      LowerIdempotent(s[1..]);
    }
  }

  /** The header test looks at the extension case-insensitively: a path and
      its lower-cased form are classified alike. */
  lemma HeaderCaseInsensitive(p: string)
    ensures IsHeader(Lower(p)) <==> IsHeader(p)
  {
    SplitExtLower(p);
    LowerIdempotent(SplitExt(p).1);
  }

  /** A makefile is never a header or a source: its name holds no dot, so
      its extension is empty. */
  lemma MakefileIsNeither(p: string)
    requires IsMakefile(p)
    ensures !IsHeader(p) && !IsSource(p)
  {
    HasExtensionIff(p);
    assert !DotAfterName(Basename(p));
    assert SplitExt(p).1 == [];
  }

  /** The base name of `dir + "/" + name`, for a name without slashes. */
  lemma BasenameOf(dir: string, name: string)
    requires '/' !in name
    ensures Basename(dir + "/" + name) == name
  {
    var p := dir + "/" + name;
    var r := LastIndex(p, '/');
    assert p[|dir|] == '/';
    assert forall i :: |dir| < i < |p| ==> p[i] == name[i - |dir| - 1];
    assert r == |dir|;
    assert p[|dir| + 1..] == name;
  }

  lemma LowerMakefile()
    ensures Lower("Makefile") == "makefile"
  {
    var l := Lower("Makefile");
    assert l[0] == 'm' && l[1] == 'a' && l[2] == 'k' && l[3] == 'e';
    assert l[4] == 'f' && l[5] == 'i' && l[6] == 'l' && l[7] == 'e';
  }

  lemma MakefileInDirectory()
    ensures IsMakefile("src/Makefile")
  {
    BasenameOf("src", "Makefile");
    assert "src" + "/" + "Makefile" == "src/Makefile";
    LowerMakefile();
  }

  lemma MakefileWithSuffix()
    ensures !IsMakefile("Makefile.am")
  {
    var p := "Makefile.am";
    assert '/' !in p;
    assert Basename(p) == p;
    assert |Lower(p)| == 11;
  }

  /** The extension of `stem + ext`, for a plain file name whose extension
      is a dot and letters. */
  lemma ExtensionOf(stem: string, ext: string)
    requires stem != [] && stem[0] != '.' && '/' !in stem
    requires ext != [] && ext[0] == '.' && '.' !in ext[1..] && '/' !in ext
    ensures SplitExt(stem + ext).1 == ext
  {
    var p := stem + ext;
    var dot := |stem|;
    assert p[dot] == '.';
    assert forall i :: dot < i < |p| ==> p[i] == ext[i - dot] && ext[i - dot] in ext[1..];
    assert LastIndex(p, '.') == dot;
    assert forall i :: 0 <= i < |p| ==> p[i] != '/' by {
      assert forall i :: 0 <= i < |stem| ==> p[i] in stem;
      assert forall i :: |stem| <= i < |p| ==> p[i] in ext;
    }
    assert LastIndex(p, '/') == -1;
    assert p[0] != '.';
    assert NamedBeforeDot(p, -1, dot);
    assert p[dot..] == ext;
  }

  /** The extension of `dir + "/" + stem + ext`, for a file name as in
      `ExtensionOf`; dots in the directory do not matter. */
  lemma ExtensionInDirectory(dir: string, stem: string, ext: string)
    requires stem != [] && stem[0] != '.' && '/' !in stem
    requires ext != [] && ext[0] == '.' && '.' !in ext[1..] && '/' !in ext
    ensures SplitExt(dir + "/" + stem + ext).1 == ext
  {
    var p := dir + "/" + stem + ext;
    var sep, dot := |dir|, |dir| + 1 + |stem|;
    assert p[sep] == '/' && p[dot] == '.';
    assert forall i :: dot < i < |p| ==> p[i] == ext[i - dot] && ext[i - dot] in ext[1..];
    assert LastIndex(p, '.') == dot;
    assert forall i :: sep < i < |p| ==> p[i] != '/' by {
      assert forall i :: sep < i < dot ==> p[i] == stem[i - sep - 1];
      assert forall i :: dot <= i < |p| ==> p[i] == ext[i - dot];
    }
    assert LastIndex(p, '/') == sep;
    assert p[sep + 1] == stem[0];
    assert NamedBeforeDot(p, sep, dot);
    assert p[dot..] == ext;
  }

  lemma SourceInDirectory()
    ensures IsSource("src/foo.c") && IsHeader("src/foo.c")
  {
    ExtensionInDirectory("src", "foo", ".c");
    assert "src" + "/" + "foo" + ".c" == "src/foo.c";
    assert Lower(".c") == ".c";
  }

  lemma UpperCaseHeader()
    ensures IsHeader("X.HPP")
  {
    ExtensionOf("X", ".HPP");
    assert "X" + ".HPP" == "X.HPP";
    assert Lower(".HPP") == ".hpp";
  }

  lemma LastExtensionOnly()
    ensures !IsHeader("a.c.txt")
  {
    ExtensionOf("a.c", ".txt");
    assert "a.c" + ".txt" == "a.c.txt";
    assert Lower(".txt")[1] == 't';
  }

  lemma SourceFileIsHeader()
    ensures IsHeader("foo.c") && IsSource("foo.c")
  {
    ExtensionOf("foo", ".c");
    assert "foo" + ".c" == "foo.c";
    assert Lower(".c") == ".c";
  }
}
