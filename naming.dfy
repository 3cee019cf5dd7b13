/**
 * Output and upload names: `os.path.basename`, `os.path.splitext` (POSIX rules) and the
 * `.xml` upload filter of the web front end.
 */
module Naming {
  import opened Text

  /** `s.rfind(c)`: the last position of `c`, or -1. */
  function LastIndexOf(s: string, c: char): (i: int)
    ensures -1 <= i < |s|
    decreases |s|
  {
    if s == [] then -1
    else if s[|s| - 1] == c then |s| - 1
    else LastIndexOf(s[..|s| - 1], c)
  }

  /** `os.path.basename(p)`: what follows the last `/`. */
  function Basename(p: string): string {
    p[LastIndexOf(p, '/') + 1..]
  }

  /** Every character is a dot (vacuously so for the empty string). */
  predicate AllDots(s: string)
    decreases |s|
  {
    s == [] || (s[|s| - 1] == '.' && AllDots(s[..|s| - 1]))
  }

  /** `os.path.splitext(p)` for a name without `/`: split at the last `.` when some
      character other than `.` comes before it; otherwise the extension is empty. */
  function SplitExt(p: string): (string, string) {
    var dot := LastIndexOf(p, '.');
    if dot > 0 && !AllDots(p[..dot]) then (p[..dot], p[dot..])
    else (p, "")
  }

  /** The name an output for upload `name` gets: `splitext(basename(name))[0]` + `ext`. */
  function Stem(name: string): string {
    SplitExt(Basename(name)).0
  }

  function EntryName(name: string, ext: string): string {
    Stem(name) + ext
  }

  /** `f.filename.lower().endswith(".xml")` */
  predicate IsXmlUpload(name: string) {
    EndsWith(Lower(name), ".xml")
  }

  /** The position found holds `c` and no later one does. */
  lemma {:induction false} LastIndexOfSpec(s: string, c: char)
    ensures LastIndexOf(s, c) >= 0 ==> s[LastIndexOf(s, c)] == c
    ensures forall j :: LastIndexOf(s, c) < j < |s| ==> s[j] != c
    decreases |s|
  {
    if s != [] && s[|s| - 1] != c {
      LastIndexOfSpec(s[..|s| - 1], c);
    }
  }

  /** The last position of `c` is the one with no `c` after it. */
  lemma LastIndexOfAt(s: string, c: char, i: int)
    requires -1 <= i < |s| && (i >= 0 ==> s[i] == c)
    requires forall j :: i < j < |s| ==> s[j] != c
    ensures LastIndexOf(s, c) == i
  {
    LastIndexOfSpec(s, c);
  }

  lemma {:induction false} AllDotsSpec(s: string)
    ensures AllDots(s) <==> forall j :: 0 <= j < |s| ==> s[j] == '.'
    decreases |s|
  {
    if s != [] {
      AllDotsSpec(s[..|s| - 1]);
    }
  }

  /** Nothing after the last `c` is a `c`, and what precedes that tail, if anything, is `c`. */
  lemma AfterLast(s: string, c: char, k: int)
    requires k == LastIndexOf(s, c)
    ensures c !in s[k + 1..]
    ensures |s[k + 1..]| < |s| ==> s[k] == c
  {
    LastIndexOfSpec(s, c);
    var b := s[k + 1..];
    forall j | 0 <= j < |b| ensures b[j] != c {
      assert b[j] == s[k + 1 + j];
    }
  }

  /** The base name holds no `/` and ends the path, right after its last `/`. */
  lemma BasenameSpec(p: string)
    ensures '/' !in Basename(p)
    ensures EndsWith(p, Basename(p))
    ensures |Basename(p)| < |p| ==> p[|p| - |Basename(p)| - 1] == '/'
  {
    var k := LastIndexOf(p, '/');
    AfterLast(p, '/', k);
    assert Basename(p) == p[k + 1..];
  }

  /**
   * `splitext` splits the name into a root and an extension that put back together give
   * the name. The extension is empty, or a `.` followed by no other `.` with a character
   * other than `.` somewhere in the root; it is empty exactly when every `.` in the name
   * has only `.`s before it (no dot at all, or leading dots such as `.xml` or `..`).
   */
  lemma SplitExtSpec(p: string)
    ensures SplitExt(p).0 + SplitExt(p).1 == p
    ensures SplitExt(p).1 != [] ==>
      SplitExt(p).1[0] == '.' && '.' !in SplitExt(p).1[1..] &&
      exists j :: 0 <= j < |SplitExt(p).0| && SplitExt(p).0[j] != '.'
    ensures SplitExt(p).1 == [] <==>
      forall i, j :: 0 <= j < i < |p| && p[i] == '.' ==> p[j] == '.'
  {
    var dot := LastIndexOf(p, '.');
    LastIndexOfSpec(p, '.');
    var (root, ext) := SplitExt(p);
    if dot > 0 {
      AllDotsSpec(p[..dot]);
    }
    if dot > 0 && !AllDots(p[..dot]) {
      assert root + ext == p;
      forall k | 0 <= k < |ext[1..]| ensures ext[1..][k] != '.' {
        assert ext[1..][k] == p[dot + 1 + k];
      }
      var j :| 0 <= j < dot && p[..dot][j] != '.';
      assert root[j] == p[j];
    } else {
      forall i, j | 0 <= j < i < |p| && p[i] == '.' ensures p[j] == '.' {
        assert i <= dot;
        assert p[j] == p[..dot][j];
      }
    }
  }

  /** With the last `/` at `slash` (or none, -1) and the last `.` at `dot`, past a first
      base-name character that is not a dot, the stem lies between the two. */
  lemma StemAt(p: string, slash: int, dot: int)
    requires -1 <= slash && slash + 1 < dot < |p|
    requires (slash >= 0 ==> p[slash] == '/') && forall j :: slash < j < |p| ==> p[j] != '/'
    requires p[dot] == '.' && (forall j :: dot < j < |p| ==> p[j] != '.') && p[slash + 1] != '.'
    ensures Stem(p) == p[slash + 1..dot]
  {
    LastIndexOfAt(p, '/', slash);
    var b := p[slash + 1..];
    assert b[dot - slash - 1] == '.';
    LastIndexOfAt(b, '.', dot - slash - 1);
    AllDotsSpec(b[..dot - slash - 1]);
    assert b[..dot - slash - 1][0] != '.';
  }

  /** An upload name loses its last extension, and only that: the base may hold dots of
      its own, as `a.b.xml` gives `a.b`. */
  lemma StemDropsExtension(base: string, ext: string)
    requires '/' !in base && '/' !in ext && '.' !in ext && base != [] && base[0] != '.'
    ensures Stem(base + "." + ext) == base
  {
    var p := base + "." + ext;
    assert p[|base|] == '.';
    forall j | |base| < j < |p| ensures p[j] != '.' && p[j] != '/' {
      assert p[j] == ext[j - |base| - 1];
    }
    forall j | 0 <= j < |base| ensures p[j] != '/' {
      assert p[j] == base[j];
    }
    StemAt(p, -1, |base|);
    assert p[0..|base|] == base;
  }

  /** The directory part of an upload name plays no part in its stem. */
  lemma StemDropsDirectory(dir: string, name: string)
    requires '/' !in name
    ensures Stem(dir + "/" + name) == Stem(name)
  {
    var q := dir + "/" + name;
    forall j | |dir| < j < |q| ensures q[j] != '/' {
      assert q[j] == name[j - |dir| - 1];
    }
    LastIndexOfAt(q, '/', |dir|);
    assert q[|dir| + 1..] == name;
    LastIndexOfAt(name, '/', -1);
    assert name[0..] == name;
  }

  /** A name that is only a dotted extension, such as `.xml`, is kept whole, so its member
      is `.xml.xlsx`. */
  lemma DotNameKept(ext: string)
    requires '/' !in ext && '.' !in ext
    ensures Stem("." + ext) == "." + ext
    ensures EntryName("." + ext, ".xlsx") == "." + ext + ".xlsx"
  {
    var p := "." + ext;
    forall j | 0 <= j < |p| ensures p[j] != '/' && (j > 0 ==> p[j] != '.') {
      if j > 0 {
        assert p[j] == ext[j - 1];
      }
    }
    LastIndexOfAt(p, '/', -1);
    assert p[0..] == p;
    LastIndexOfAt(p, '.', 0);
  }

  /** The filter accepts exactly the names whose last four characters are `.`, then `x`,
      `m` and `l` in either case. */
  lemma UploadFilterSpec(name: string)
    ensures IsXmlUpload(name) <==>
      |name| >= 4 && name[|name| - 4] == '.' &&
      (name[|name| - 3] == 'x' || name[|name| - 3] == 'X') &&
      (name[|name| - 2] == 'm' || name[|name| - 2] == 'M') &&
      (name[|name| - 1] == 'l' || name[|name| - 1] == 'L')
  {
    var l := Lower(name);
    if |name| >= 4 {
      var t := l[|l| - 4..];
      assert t == ".xml" <==> t[0] == '.' && t[1] == 'x' && t[2] == 'm' && t[3] == 'l';
      assert t[0] == LowerAscii(name[|name| - 4]);
      assert t[1] == LowerAscii(name[|name| - 3]);
      assert t[2] == LowerAscii(name[|name| - 2]);
      assert t[3] == LowerAscii(name[|name| - 1]);
    }
  }

  /** The filter ignores case and looks only at the end of the name. */
  lemma UploadFilterExamples()
    ensures IsXmlUpload("DATA.XML")
    ensures IsXmlUpload("a.Xml")
    ensures !IsXmlUpload("data.xml.txt")
    ensures !IsXmlUpload("xml")
  {
    UploadFilterSpec("DATA.XML");
    UploadFilterSpec("a.Xml");
    UploadFilterSpec("data.xml.txt");
    UploadFilterSpec("xml");
  }
}
