/**
 * Slug resolution and post paths (src/lib/blog/utils.ts).
 *
 * A post lives in `<BLOG_PATH>/<slug>.mdx`. The slug of a globbed file is the
 * match of the regular expression `/.+(?=.mdx)/i` against the file's basename,
 * and the path of a slug is the blog directory joined with `<slug>.mdx`.
 * File-system access is abstracted: reading and front-matter parsing is a
 * total function from path to parsed source.
 */
module BlogUtils {
  import opened Wrappers

  /** Parsed front matter of a post (the `data` of gray-matter's result). Dates are timestamps. */
  datatype FrontMatter = FrontMatter(title: string, summary: string, date: int, draft: bool, tags: seq<string>)

  /** Result of gray-matter on a file: the body text and the parsed front matter. */
  datatype MdxSource = MdxSource(content: string, data: FrontMatter)

  // ---------------------------------------------------------------------------
  // path.basename and path.join (POSIX)
  // ---------------------------------------------------------------------------

  /** `s` with every trailing '/' removed. */
  function StripTrailingSlashes(s: string): (r: string)
    ensures r <= s
    ensures r == [] || r[|r| - 1] != '/'
    ensures forall k :: |r| <= k < |s| ==> s[k] == '/'
  {
    if |s| > 0 && s[|s| - 1] == '/' then StripTrailingSlashes(s[..|s| - 1]) else s
  }

  /** The text after the last '/' of `s` (all of `s` when it has none). */
  function AfterLastSlash(s: string): (r: string)
    ensures '/' !in r
  {
    if s == [] then []
    else if s[|s| - 1] == '/' then []
    else AfterLastSlash(s[..|s| - 1]) + [s[|s| - 1]]
  }

  /** `AfterLastSlash(s)` is the suffix of `s` that follows its last '/'. */
  lemma {:induction false} AfterLastSlashIsLastSegment(s: string)
    ensures |AfterLastSlash(s)| <= |s|
    ensures s[|s| - |AfterLastSlash(s)|..] == AfterLastSlash(s)
    ensures |AfterLastSlash(s)| < |s| ==> s[|s| - |AfterLastSlash(s)| - 1] == '/'
  {
    if s != [] && s[|s| - 1] != '/' {
      var s' := s[..|s| - 1];
      var last := s[|s| - 1];
      AfterLastSlashIsLastSegment(s');
      var r' := AfterLastSlash(s');
      var r := AfterLastSlash(s);
      assert r == r' + [last];
      var k := |s'| - |r'|;
      assert |s| - |r| == k;
      assert s[k..] == s'[k..] + [last];
      if |r| < |s| {
        assert s[k - 1] == s'[k - 1];
      }
    }
  }

  /** `path.basename`: the last segment of a path, trailing separators ignored. */
  function Basename(path: string): (r: string)
    ensures '/' !in r
  {
    AfterLastSlash(StripTrailingSlashes(path))
  }

  /** `path.join` of a directory and a single file name (no separators or dot segments in `name`). */
  function Join(dir: string, name: string): (r: string)
    ensures dir <= r
    ensures |dir| + |name| <= |r| <= |dir| + 1 + |name|
    ensures r[|r| - |name|..] == name
    ensures |r| == |dir| + |name| <==> dir == [] || dir[|dir| - 1] == '/'
    ensures |r| == |dir| + 1 + |name| ==> r[|dir|] == '/'
  {
    if dir == [] then name
    else if dir[|dir| - 1] == '/' then dir + name
    else dir + "/" + name
  }

  lemma {:induction false} AfterLastSlashAppend(a: string, b: string)
    requires '/' !in b
    ensures AfterLastSlash(a + b) == AfterLastSlash(a) + b
  {
    if b == [] {
      assert a + b == a;
    } else {
      var c := a + b;
      var b' := b[..|b| - 1];
      var last := b[|b| - 1];
      assert last in b;
      assert c[..|c| - 1] == a + b' && c[|c| - 1] == last;
      assert AfterLastSlash(c) == AfterLastSlash(a + b') + [last];
      AfterLastSlashAppend(a, b');
      assert b' + [last] == b;
    }
  }

  /** The basename of a directory joined with a file name is that file name. */
  lemma BasenameOfJoin(dir: string, name: string)
    requires name != [] && '/' !in name
    ensures Basename(Join(dir, name)) == name
  {
    var p := Join(dir, name);
    var q: string;
    if dir == [] {
      q := [];
    } else if dir[|dir| - 1] == '/' {
      q := dir;
    } else {
      q := dir + "/";
    }
    assert p == q + name;
    assert p[|p| - 1] == name[|name| - 1];
    assert name[|name| - 1] in name;
    assert StripTrailingSlashes(p) == p;
    AfterLastSlashAppend(q, name);
    assert AfterLastSlash(q) == [] by {
      if q != [] {
        assert q[|q| - 1] == '/';
      }
    }
    assert [] + name == name;
  }

  // ---------------------------------------------------------------------------
  // The regular expression /.+(?=.mdx)/i
  // ---------------------------------------------------------------------------

  /** The characters JavaScript's `.` does not match. */
  predicate IsLineTerminator(c: char) {
    c == '\n' || c == '\r' || c == '\U{2028}' || c == '\U{2029}'
  }

  /** No character of `s[lo..hi)` is a line terminator, so `.+` can span it. */
  predicate DotsSpan(s: string, lo: int, hi: int)
    requires 0 <= lo <= hi <= |s|
  {
    forall k :: lo <= k < hi ==> !IsLineTerminator(s[k])
  }

  /** The lookahead `(?=.mdx)` with the `i` flag succeeds at position `e`. */
  predicate LookaheadAt(s: string, e: int) {
    && 0 <= e && e + 4 <= |s|
    && !IsLineTerminator(s[e])
    && (s[e + 1] == 'm' || s[e + 1] == 'M')
    && (s[e + 2] == 'd' || s[e + 2] == 'D')
    && (s[e + 3] == 'x' || s[e + 3] == 'X')
  }

  /** The whole pattern matches exactly `s[p..e)`. */
  predicate MatchesAt(s: string, p: int, e: int) {
    0 <= p < e <= |s| && DotsSpan(s, p, e) && LookaheadAt(s, e)
  }

  /** Where the greedy `.+` starting at `p` stops before backtracking: the first line terminator. */
  function RunEnd(s: string, p: nat): (q: nat)
    requires p <= |s|
    ensures p <= q <= |s| && DotsSpan(s, p, q)
    ensures q == |s| || IsLineTerminator(s[q])
    decreases |s| - p
  {
    if p == |s| || IsLineTerminator(s[p]) then p else RunEnd(s, p + 1)
  }

  /** Backtracking of `.+` from end `e` down to `p + 1` until the lookahead holds. */
  function Backtrack(s: string, p: nat, e: nat): (r: Option<nat>)
    requires p <= e <= |s|
    ensures r.Some? ==> p < r.value <= e && LookaheadAt(s, r.value)
    ensures forall k :: (if r.Some? then r.value else p) < k <= e ==> !LookaheadAt(s, k)
    decreases e
  {
    if e <= p then None
    else if LookaheadAt(s, e) then Some(e)
    else Backtrack(s, p, e - 1)
  }

  /**
   * `RegExp.prototype.exec` from start position `p` onwards: the leftmost start
   * at which the pattern matches, and the longest match there.
   */
  function ExecFrom(s: string, p: nat): (r: Option<(nat, nat)>)
    requires p <= |s|
    ensures r.Some? ==> p <= r.value.0 && MatchesAt(s, r.value.0, r.value.1)
    ensures r.Some? ==> forall i, j :: p <= i < r.value.0 ==> !MatchesAt(s, i, j)
    ensures r.Some? ==> forall j :: r.value.1 < j ==> !MatchesAt(s, r.value.0, j)
    ensures r.None? ==> forall i, j :: p <= i ==> !MatchesAt(s, i, j)
    decreases |s| - p
  {
    if p == |s| then None
    else
      var q := RunEnd(s, p);
      var b := Backtrack(s, p, q);
      if b.Some? then
        assert forall j :: b.value < j ==> !MatchesAt(s, p, j) by {
          forall j | b.value < j ensures !MatchesAt(s, p, j) {
            if j > q && j <= |s| { assert p <= q < j && IsLineTerminator(s[q]); }
          }
        }
        Some((p, b.value))
      else
        assert forall j :: !MatchesAt(s, p, j) by {
          forall j ensures !MatchesAt(s, p, j) {
            if j > q && j <= |s| { assert p <= q < j && IsLineTerminator(s[q]); }
          }
        }
        ExecFrom(s, p + 1)
  }

  /** `x` occurs in `s` starting at index `i`. */
  predicate OccursAt(s: string, x: string, i: int) {
    0 <= i && i + |x| <= |s| && s[i..i + |x|] == x
  }

  /** `/.+(?=.mdx)/i.exec(s)?.[0]`: the matched text, or None where `exec` returns null. */
  function MatchSlugPattern(s: string): (r: Option<string>)
    ensures r.Some? <==> exists i, j :: MatchesAt(s, i, j)
    ensures r.Some? ==> r.value != [] && forall c :: c in r.value ==> !IsLineTerminator(c)
    ensures r.Some? ==> exists i :: OccursAt(s, r.value, i)
    ensures r.Some? && (forall c :: c in s ==> !IsLineTerminator(c)) ==> r.value <= s
  {
    match ExecFrom(s, 0)
    case None => None
    case Some((i, j)) =>
      assert OccursAt(s, s[i..j], i);
      assert forall c :: c in s[i..j] ==> !IsLineTerminator(c) by {
        forall c | c in s[i..j] ensures !IsLineTerminator(c) {
          var k :| 0 <= k < j - i && s[i..j][k] == c;
          assert s[i + k] == c;
        }
      }
      if forall c :: c in s ==> !IsLineTerminator(c) then
        assert DotsSpan(s, 0, j) by {
          forall k | 0 <= k < j ensures !IsLineTerminator(s[k]) { assert s[k] in s; }
        }
        assert MatchesAt(s, 0, j);
        Some(s[i..j])
      else
        Some(s[i..j])
  }

  /**
   * `getSlug`: the pattern applied to the path's basename. None stands for the
   * TypeError that destructuring a null `exec` result throws.
   */
  function GetSlug(slugPath: string): (r: Option<string>)
    ensures r.Some? ==> r.value != [] && '/' !in r.value
    ensures r.Some? ==> forall c :: c in r.value ==> !IsLineTerminator(c)
    ensures r.Some? ==> exists i :: OccursAt(Basename(slugPath), r.value, i)
  {
    var b := Basename(slugPath);
    var m := MatchSlugPattern(b);
    if m.Some? then
      assert '/' !in m.value by {
        var i :| OccursAt(b, m.value, i);
        forall k | 0 <= k < |m.value| ensures m.value[k] != '/' {
          assert m.value[k] == b[i + k] && b[i + k] in b;
        }
      }
      m
    else
      m
  }

  /** The extension spellings the lookahead accepts after its wildcard character. */
  predicate IsMdxSpelling(ext: string) {
    |ext| == 3
    && (ext[0] == 'm' || ext[0] == 'M')
    && (ext[1] == 'd' || ext[1] == 'D')
    && (ext[2] == 'x' || ext[2] == 'X')
  }

  /** A name a post file may carry before its extension and still resolve to itself. */
  predicate IsPlainName(s: string) {
    s != [] && '/' !in s && forall c :: c in s ==> !IsLineTerminator(c)
  }

  /**
   * Greedy match: the slug of `name + c + ext` is all of `name`, for any
   * non-terminator `c` (the unescaped dot) and any letter case of "mdx".
   */
  lemma SlugPatternStripsExtension(name: string, c: char, ext: string)
    requires name != [] && forall x :: x in name ==> !IsLineTerminator(x)
    requires !IsLineTerminator(c) && IsMdxSpelling(ext)
    ensures MatchSlugPattern(name + [c] + ext) == Some(name)
  {
    var s := name + [c] + ext;
    var n := |name|;
    assert LookaheadAt(s, n);
    assert DotsSpan(s, 0, n) by {
      forall k | 0 <= k < n ensures !IsLineTerminator(s[k]) { assert s[k] in name; }
    }
    assert MatchesAt(s, 0, n);
    var r := ExecFrom(s, 0);
    assert r.Some?;
    assert r.value == (0, n);
    assert s[0..n] == name;
  }

  lemma SlugPatternNeedsFiveCharacters(s: string)
    requires |s| <= 4
    ensures MatchSlugPattern(s) == None
  {
  }

  lemma SlugPatternNeedsAnX(s: string)
    requires 'x' !in s && 'X' !in s
    ensures MatchSlugPattern(s) == None
  {
    forall i, j ensures !MatchesAt(s, i, j) {
      if 0 <= j && j + 4 <= |s| { assert s[j + 3] in s; }
    }
  }

  /** Greedy: the last ".mdx" ends the match, so "a.b.mdx" gives "a.b". */
  lemma SlugPatternGreedyExample()
    ensures MatchSlugPattern("a.b.mdx") == Some("a.b")
  {
    assert "a.b.mdx" == "a.b" + ['.'] + "mdx";
    SlugPatternStripsExtension("a.b", '.', "mdx");
  }

  /** Case-insensitive: "Post.MDX" gives "Post". */
  lemma SlugPatternCaseExample()
    ensures MatchSlugPattern("Post.MDX") == Some("Post")
  {
    assert "Post.MDX" == "Post" + ['.'] + "MDX";
    SlugPatternStripsExtension("Post", '.', "MDX");
  }

  /** The dot before "mdx" is unescaped: "fooxmdx" gives "foo". */
  lemma SlugPatternWildcardExample()
    ensures MatchSlugPattern("fooxmdx") == Some("foo")
  {
    assert "fooxmdx" == "foo" + ['x'] + "mdx";
    SlugPatternStripsExtension("foo", 'x', "mdx");
  }

  /**
   * Only the text after a line terminator can match: "x\nab.mdx" gives "ab",
   * the slug `SlugPatternStripsExtension` gives "ab.mdx" as well.
   */
  lemma SlugPatternAfterLineTerminator()
    ensures MatchSlugPattern("x\nab.mdx") == Some("ab")
  {
    var s := "x\nab.mdx";
    assert DotsSpan(s, 2, 4) && LookaheadAt(s, 4);
    assert MatchesAt(s, 2, 4);
    assert IsLineTerminator(s[1]) && s[3] == 'b';
    assert !LookaheadAt(s, 1);
    assert forall j :: !MatchesAt(s, 0, j) by {
      forall j | 1 < j <= |s| ensures !DotsSpan(s, 0, j) { assert IsLineTerminator(s[1]); }
    }
    assert forall j :: !MatchesAt(s, 1, j) by {
      forall j | 1 < j <= |s| ensures !DotsSpan(s, 1, j) { assert IsLineTerminator(s[1]); }
    }
    var r := ExecFrom(s, 0);
    assert r.value == (2, 4);
    assert s[2..4] == "ab";
  }

  /** `exec` returns null for these basenames, so `getSlug` throws. */
  lemma SlugPatternFailures()
    ensures MatchSlugPattern("notes.md") == None
    ensures MatchSlugPattern(".mdx") == None
  {
    SlugPatternNeedsAnX("notes.md");
    SlugPatternNeedsFiveCharacters(".mdx");
  }

  /** `.` does not match a line terminator, so the match starts after a leading newline. */
  lemma SlugPatternSkipsLineTerminator()
    ensures MatchSlugPattern("\nab.mdx") == Some("ab")
  {
    var s := "\nab.mdx";
    assert DotsSpan(s, 1, 3) && LookaheadAt(s, 3);
    assert MatchesAt(s, 1, 3);
    assert IsLineTerminator(s[0]);
    assert forall j :: !MatchesAt(s, 0, j) by {
      forall j | 0 < j <= |s| ensures !DotsSpan(s, 0, j) { assert IsLineTerminator(s[0]); }
    }
    var r := ExecFrom(s, 0);
    assert r.value == (1, 3);
    assert s[1..3] == "ab";
  }

  // ---------------------------------------------------------------------------
  // getPath, loadMdxFromSlug, findAllPostSlugs
  // ---------------------------------------------------------------------------

  /** `getPath`: the file holding the post `slug` under the blog directory. */
  function GetPath(blogPath: string, slug: string): (r: string)
    ensures blogPath <= r
    ensures |blogPath| + |slug| + 4 <= |r| <= |blogPath| + 1 + |slug| + 4
    ensures |r| >= |slug| + 4 && r[|r| - |slug| - 4..] == slug + ".mdx"
  {
    Join(blogPath, slug + ".mdx")
  }

  /** Round trip: the slug of the path of a plain slug is that slug. */
  lemma GetSlugOfGetPath(blogPath: string, slug: string)
    requires IsPlainName(slug)
    ensures GetSlug(GetPath(blogPath, slug)) == Some(slug)
  {
    var name := slug + ".mdx";
    assert name == slug + ['.'] + "mdx";
    BasenameOfJoin(blogPath, name);
    SlugPatternStripsExtension(slug, '.', "mdx");
  }

  /** Distinct plain slugs have distinct paths (the slug is recoverable from the path). */
  lemma GetPathInjective(blogPath: string, a: string, b: string)
    requires IsPlainName(a) && IsPlainName(b) && a != b
    ensures GetPath(blogPath, a) != GetPath(blogPath, b)
  {
    GetSlugOfGetPath(blogPath, a);
    GetSlugOfGetPath(blogPath, b);
  }

  /** `loadMdxFromSlug`: read and parse the file of `slug`; `read` abstracts `fs.readFile` and gray-matter. */
  function LoadMdxFromSlug(read: string -> MdxSource, blogPath: string, slug: string): MdxSource {
    read(GetPath(blogPath, slug))
  }

  /** Loading a globbed file's slug reads back that very file. */
  lemma LoadMdxFromSlugReadsGlobbedFile(read: string -> MdxSource, blogPath: string, name: string)
    requires IsPlainName(name)
    ensures forall slug :: GetSlug(GetPath(blogPath, name)) == Some(slug) ==>
      LoadMdxFromSlug(read, blogPath, slug) == read(GetPath(blogPath, name))
  {
    GetSlugOfGetPath(blogPath, name);
  }

  /**
   * `findAllPostSlugs`: `getSlug` mapped over the globbed paths. One path
   * without a match makes the whole call fail (None).
   */
  function FindAllPostSlugs(paths: seq<string>): (r: Option<seq<string>>)
    ensures r.Some? <==> forall i :: 0 <= i < |paths| ==> GetSlug(paths[i]).Some?
    ensures r.Some? ==> |r.value| == |paths|
    ensures r.Some? ==> forall i :: 0 <= i < |paths| ==> GetSlug(paths[i]) == Some(r.value[i])
  {
    if paths == [] then Some([])
    else
      var head := GetSlug(paths[0]);
      var tail := FindAllPostSlugs(paths[1..]);
      assert forall i :: 1 <= i < |paths| ==> paths[i] == paths[1..][i - 1];
      if head.None? || tail.None? then None
      else Some([head.value] + tail.value)
  }

  /** Paths globbed as `<BLOG_PATH>/<name>.mdx` resolve to exactly their names, in path order. */
  lemma FindAllPostSlugsOfPaths(blogPath: string, names: seq<string>, paths: seq<string>)
    requires |paths| == |names|
    requires forall i :: 0 <= i < |names| ==> IsPlainName(names[i]) && paths[i] == GetPath(blogPath, names[i])
    ensures FindAllPostSlugs(paths) == Some(names)
  {
    forall i | 0 <= i < |names| ensures GetSlug(paths[i]) == Some(names[i]) {
      GetSlugOfGetPath(blogPath, names[i]);
    }
    var r := FindAllPostSlugs(paths);
    assert r.value == names;
  }
}
