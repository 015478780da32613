/**
 * Path arithmetic of the build script (internal/scripts/build.mjs): the locale a
 * source path belongs to, the extension that decides how a file is handled, the
 * output targets a page expands to (its own path and its "pretty" sibling
 * `<dir>/<name>/index.html`), and the relative prefix from a target back to the
 * output root.  Paths are relative and '/'-separated.
 */
module Paths {
  import opened Options
  import opened Text

  datatype Locale = En | Fr
  {
    /** The tag written into `<html lang="...">` and used to pick a string table. */
    function Code(): string
    {
      if this == Fr then "fr" else "en"
    }
  }

  /** `rest` placed under directory `dir`; the top level is the empty directory. */
  function Under(dir: string, rest: string): string
  {
    if dir == "" then rest else dir + "/" + rest
  }

  // ---------------------------------------------------------------- locale

  /** `getLocale`: a source path is French when it is `fr` or lies under `fr/`. */
  function LocaleOf(relPath: string): Locale
  {
    if StartsWith(relPath, "fr/") || relPath == "fr" then Fr else En
  }

  lemma FirstSeparator(p: string, i: nat)
    requires IndexOf(p, "/") == Some(i)
    ensures i < |p| && p == p[..i] + ['/'] + p[i + 1..] && '/' !in p[..i]
  {
    assert OccursAt(p, "/", i);
    assert p[i..i + 1][0] == p[i];
    forall j | 0 <= j < i ensures p[..i][j] != '/' {
      assert !OccursAt(p, "/", j);
      assert p[j..j + 1] == [p[j]];
    }
  }

  lemma NoSeparator(p: string)
    requires IndexOf(p, "/") == None
    ensures '/' !in p
  {
    forall j | 0 <= j < |p| ensures p[j] != '/' {
      assert !OccursAt(p, "/", j);
      assert p[j..j + 1] == [p[j]];
    }
  }

  /** The locale is decided by an exact match of the first path segment with `fr`. */
  lemma LocaleIsFirstSegment(p: string)
    ensures LocaleOf(p) == Fr <==> Split(p, '/')[0] == "fr"
  {
    match IndexOf(p, "/")
    case None =>
      NoSeparator(p);
      SplitWithoutSeparator(p, '/');
      assert !StartsWith(p, "fr/") by {
        if |p| >= 3 { assert p[2] in p; }
      }
    case Some(i) =>
      FirstSeparator(p, i);
      SplitAtFirst(p[..i], '/', p[i + 1..]);
      FirstSegmentBeforeSeparator(p, i);
  }

  lemma FirstSegmentBeforeSeparator(p: string, i: nat)
    requires i < |p| && p[i] == '/' && '/' !in p[..i]
    ensures p != "fr"
    ensures StartsWith(p, "fr/") <==> p[..i] == "fr"
  {
    assert p[i] in p;
    assert forall j :: 0 <= j < i ==> p[j] != '/' by {
      forall j | 0 <= j < i ensures p[j] != '/' {
        assert p[..i][j] == p[j];
        assert p[..i][j] in p[..i];
      }
    }
    if StartsWith(p, "fr/") {
      assert p[0] == 'f' && p[1] == 'r' && p[2] == '/';
      assert i == 2;
      assert p[..i] == "fr";
    }
    if p[..i] == "fr" {
      assert i == 2;
      assert p[..3] == "fr/";
    }
  }

  /** Paths that merely contain `fr` somewhere else stay in the default locale. */
  lemma LocaleExamples()
    ensures LocaleOf("blog/fr-report.html") == En
    ensures LocaleOf("french.html") == En
    ensures LocaleOf("fr/blog/index.html") == Fr
    ensures LocaleOf("fr") == Fr
  {
    assert "blog/fr-report.html"[..3] != "fr/" by { assert "blog/fr-report.html"[0] == 'b'; }
    assert "french.html"[..3] != "fr/" by { assert "french.html"[2] == 'e'; }
    assert "fr/blog/index.html"[..3] == "fr/";
  }

  // ------------------------------------------------------------- root prefix

  /** Directory depth of a target: the pieces of the path split on '/', minus one. */
  function Depth(target: string): nat
  {
    |Split(target, '/')| - 1
  }

  /** `getRootPrefixFromTarget`: `.` at the top level, otherwise one `../` per level. */
  function RootPrefix(target: string): string
  {
    if Depth(target) == 0 then "." else Repeat("../", Depth(target))
  }

  /** The prefix with its trailing '/' dropped, as every caller substitutes it. */
  function RootReplacement(target: string): string
  {
    var prefix := RootPrefix(target);
    if EndsWith(prefix, "/") then prefix[..|prefix| - 1] else prefix
  }

  /** `n` parent-directory segments. */
  function Parents(n: nat): seq<string>
  {
    seq(n, _ => "..")
  }

  /** The depth is the number of separators in the target. */
  lemma DepthIsSeparatorCount(target: string)
    ensures Depth(target) == Count(target, '/')
  {
    SplitLength(target, '/');
  }

  lemma {:induction false} RepeatIsJoinedParents(n: nat)
    requires n > 0
    ensures Repeat("../", n) == Join(Parents(n), '/') + "/"
  {
    if n > 1 {
      RepeatIsJoinedParents(n - 1);
      assert Parents(n) == [".."] + Parents(n - 1);
      assert Parents(n)[1..] == Parents(n - 1);
    }
  }

  /**
   * The root replacement is `.` at depth 0 and otherwise exactly `Depth` copies
   * of `..` joined by '/': splitting it on '/' yields those segments.
   */
  lemma RootReplacementShape(target: string)
    ensures Depth(target) == 0 ==> RootReplacement(target) == "."
    ensures Depth(target) > 0 ==> RootReplacement(target) == Join(Parents(Depth(target)), '/')
    ensures Depth(target) > 0 ==> Split(RootReplacement(target), '/') == Parents(Depth(target))
  {
    var d := Depth(target);
    if d > 0 {
      RepeatIsJoinedParents(d);
      var j := Join(Parents(d), '/');
      assert RootPrefix(target) == j + "/";
      assert EndsWith(j + "/", "/");
      assert (j + "/")[..|j + "/"| - 1] == j;
      forall i | 0 <= i < |Parents(d)|
        ensures '/' !in Parents(d)[i]
      {
        assert Parents(d)[i] == "..";
      }
      SplitJoin(Parents(d), '/');
    } else {
      assert RootPrefix(target) == ".";
      assert !EndsWith(".", "/");
    }
  }

  lemma {:induction false} RepeatDotsAndSlashes(n: nat)
    ensures forall i :: 0 <= i < |Repeat("../", n)| ==> Repeat("../", n)[i] in "./"
  {
    if n > 0 {
      RepeatDotsAndSlashes(n - 1);
      forall i | 0 <= i < |Repeat("../", n)| ensures Repeat("../", n)[i] in "./" {
        if i >= 3 {
          assert Repeat("../", n)[i] == Repeat("../", n - 1)[i - 3];
        }
      }
    }
  }

  /** The replacement is never empty and holds only '.' and '/'. */
  lemma RootReplacementAlphabet(target: string)
    ensures |RootReplacement(target)| > 0
    ensures forall i :: 0 <= i < |RootReplacement(target)| ==> RootReplacement(target)[i] in "./"
  {
    var d := Depth(target);
    if d > 0 {
      RepeatDotsAndSlashes(d);
      assert |Repeat("../", d)| == 3 * d;
    }
  }

  lemma DepthExamples()
    ensures Depth("a/b/c.html") == 2
    ensures Depth("a.html") == 0
  {
    NestedDepth();
    DepthIsSeparatorCount("a.html");
    CountAbsent("a.html", '/');
  }

  lemma NestedDepth()
    ensures Depth("a/b/c.html") == 2
  {
    var p, q := "a/b/", "c.html";
    assert p + q == "a/b/c.html";
    CountAbsent(q, '/');
    CountAppend(p, q, '/');
    DepthIsSeparatorCount(p + q);
  }

  lemma RootReplacementExamples()
    ensures RootReplacement("a/b/c.html") == "../.."
    ensures RootReplacement("a.html") == "."
  {
    NestedRootReplacement();
    DepthExamples();
    RootReplacementShape("a.html");
  }

  lemma NestedRootReplacement()
    ensures RootReplacement("a/b/c.html") == "../.."
  {
    NestedDepth();
    TwoLevelsUp("a/b/c.html");
  }

  lemma TwoLevelsUp(target: string)
    requires Depth(target) == 2
    ensures RootReplacement(target) == "../.."
  {
    RootReplacementShape(target);
    var ps := Parents(2);
    assert ps == ["..", ".."];
    assert Join(ps[1..], '/') == "..";
    assert Join(ps, '/') == ".." + "/" + "..";
  }

  // ---------------------------------------------------------- pretty paths

  /** The last segment of a path (`path.basename`). */
  function Basename(p: string): string
  {
    match LastIndexOfChar(p, '/')
    case None => p
    case Some(i) => p[i + 1..]
  }

  /** `path.dirname` of a relative path: `.` at the top level. */
  function Dirname(p: string): string
  {
    match LastIndexOfChar(p, '/')
    case None => "."
    case Some(i) => p[..i]
  }

  /** `path.basename(p, '.html')`: the last segment without its `.html` suffix. */
  function PageName(p: string): string
  {
    if p == ".html" then ""
    else
      var b := Basename(p);
      if EndsWith(b, ".html") && b != ".html" then b[..|b| - 5] else b
  }

  /**
   * `path.join(dir, base, 'index.html')` with `dir` empty at the top level; the
   * base names `""`, `.` and `..` are normalised away as `path.join` does.
   */
  function JoinIndex(dir: string, base: string): string
  {
    if base == "" || base == "." then Under(dir, "index.html")
    else if base == ".." then
      (if dir == "" then "../index.html"
       else var up := Dirname(dir); Under(if up == "." then "" else up, "index.html"))
    else Under(dir, base + "/index.html")
  }

  /** `prettyPaths`: the `<dir>/<name>/index.html` sibling of an `.html` page that is not an index. */
  function PrettyPaths(p: string): (r: seq<string>)
    ensures |r| <= 1
    ensures r == [] <==> !EndsWith(p, ".html") || PageName(p) == "index"
  {
    if !EndsWith(p, ".html") then []
    else
      var base := PageName(p);
      if base == "index" then []
      else
        var dir := Dirname(p);
        [JoinIndex(if dir == "." then "" else dir, base)]
  }

  /** The targets a page is written to: itself first, then its pretty sibling. */
  function Targets(p: string): (r: seq<string>)
    ensures 1 <= |r| <= 2 && r[0] == p
  {
    [p] + PrettyPaths(p)
  }

  lemma SplitOffLast(dir: string, file: string)
    requires '/' !in file
    ensures dir != "" ==> LastIndexOfChar(Under(dir, file), '/') == Some(|dir|)
    ensures dir == "" ==> LastIndexOfChar(Under(dir, file), '/') == None
    ensures Basename(Under(dir, file)) == file
    ensures dir != "" ==> Dirname(Under(dir, file)) == dir
    ensures dir == "" ==> Dirname(Under(dir, file)) == "."
  {
    if dir != "" {
      assert Under(dir, file) == dir + ['/'] + file;
      LastIndexOfCharAt(dir, '/', file);
    }
  }

  /** The pieces `prettyPaths` reads off a page `<dir>/<name>.html`. */
  lemma PageParts(dir: string, name: string)
    requires '/' !in name && |name| > 0
    ensures var p := Under(dir, name + ".html");
      EndsWith(p, ".html") && PageName(p) == name && Dirname(p) == (if dir == "" then "." else dir)
  {
    var file := name + ".html";
    var p := Under(dir, file);
    assert '/' !in file;
    SplitOffLast(dir, file);
    assert EndsWith(file, ".html") && file != ".html";
    assert file[..|file| - 5] == name;
    assert p[|p| - 5..] == file[|file| - 5..];
    assert |p| > 5;
  }

  lemma PageSeparators(name: string)
    requires '/' !in name
    ensures Count(name + ".html", '/') == 0
    ensures Count(name + "/index.html", '/') == 1
  {
    CountAbsent(name + ".html", '/');
    CountAbsent(name, '/');
    IndexFileSeparators();
    CountAppend(name, "/index.html", '/');
  }

  lemma IndexFileSeparators()
    ensures Count("/index.html", '/') == 1
  {
    var p := "/index.html";
    assert '/' !in p[1..];
    CountAbsent(p[1..], '/');
  }

  lemma UnderSeparators(dir: string, file: string)
    ensures Count(Under(dir, file), '/') == (if dir == "" then 0 else Count(dir, '/') + 1) + Count(file, '/')
  {
    if dir != "" {
      CountAppend(dir, "/" + file, '/');
      assert ("/" + file)[1..] == file;
      assert Under(dir, file) == dir + ("/" + file);
    }
  }

  /** The pretty sibling of `<dir>/<name>.html` has one separator more. */
  lemma PrettyDepth(dir: string, name: string)
    requires '/' !in name
    ensures Depth(Under(dir, name + "/index.html")) == Depth(Under(dir, name + ".html")) + 1
  {
    DepthIsSeparatorCount(Under(dir, name + ".html"));
    DepthIsSeparatorCount(Under(dir, name + "/index.html"));
    PageSeparators(name);
    UnderSeparators(dir, name + ".html");
    UnderSeparators(dir, name + "/index.html");
  }

  /**
   * A page `<dir>/<name>.html` whose name is an ordinary segment other than
   * `index` has exactly one pretty sibling, `<dir>/<name>/index.html`, one
   * directory deeper.
   */
  lemma PrettyPathOfPage(dir: string, name: string)
    requires '/' !in name && name != "" && name != "." && name != ".." && name != "index" && dir != "."
    ensures PrettyPaths(Under(dir, name + ".html")) == [Under(dir, name + "/index.html")]
    ensures Depth(Under(dir, name + "/index.html")) == Depth(Under(dir, name + ".html")) + 1
  {
    PageParts(dir, name);
    PrettyDepth(dir, name);
  }

  /** An index page has no pretty sibling. */
  lemma IndexPageHasNoPretty(dir: string)
    requires dir != "."
    ensures PrettyPaths(Under(dir, "index.html")) == []
    ensures Targets(Under(dir, "index.html")) == [Under(dir, "index.html")]
  {
    SplitOffLast(dir, "index.html");
    var p := Under(dir, "index.html");
    assert EndsWith(p, ".html") by {
      assert p[|p| - 5..] == "index.html"[5..];
    }
    assert "index.html"[..5] == "index";
  }

  /** Each pretty sibling is one level deeper, so its root replacement climbs one more `..`. */
  lemma PrettyRootClimbsOneMore(dir: string, name: string)
    requires '/' !in name && name != "" && name != "." && name != ".." && name != "index" && dir != "."
    ensures var d := Depth(Under(dir, name + ".html"));
      RootReplacement(Under(dir, name + "/index.html")) == Join(Parents(d + 1), '/')
  {
    PrettyPathOfPage(dir, name);
    RootReplacementShape(Under(dir, name + "/index.html"));
  }

  // -------------------------------------------------------------- extension

  /**
   * `path.extname` of a relative file path: from the last '.' of the last
   * segment, except that a segment starting with its only dots (`.md`, `..`) has none.
   */
  function Extname(p: string): string
  {
    var b := Basename(p);
    match LastIndexOfChar(b, '.')
    case None => ""
    case Some(d) => if d == 0 || b == ".." then "" else b[d..]
  }

  /** A file `<dir>/<stem><ext>` with a non-empty stem has extension `ext` when `ext` is one dot and a dot-free word. */
  lemma ExtnameOf(dir: string, stem: string, ext: string)
    requires |stem| > 0 && |ext| >= 2 && ext[0] == '.' && '.' !in ext[1..]
    requires '/' !in stem && '/' !in ext
    ensures Extname(Under(dir, stem + ext)) == ext
  {
    var file := stem + ext;
    assert '/' !in file by {
      forall i | 0 <= i < |file| ensures file[i] != '/' {
        if i < |stem| { assert file[i] == stem[i] && stem[i] in stem; }
        else { assert file[i] == ext[i - |stem|] && ext[i - |stem|] in ext; }
      }
    }
    SplitOffLast(dir, file);
    assert file == stem + ['.'] + ext[1..];
    LastIndexOfCharAt(stem, '.', ext[1..]);
    assert file[|stem|..] == ext;
    assert file != ".." by { assert |file| >= 3; }
  }
}
