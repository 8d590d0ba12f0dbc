/**
 * The post catalog (lib/blog/posts.ts).
 *
 * `getAllPosts` loads every slug's front matter, keeps the slug/data pairs in
 * slug-enumeration order (`Promise.all` joins results in input order), drops
 * drafts and sorts the rest newest first with a stable sort. `getPost` returns
 * one file's content and front matter as parsed.
 */
module BlogPosts {
  import opened Wrappers
  import opened BlogUtils

  /** A catalog entry: the slug and the front matter loaded for it. */
  datatype Post = Post(slug: string, data: FrontMatter)

  /** What `getPost` returns. */
  datatype PostDetail = PostDetail(content: string, frontMatter: FrontMatter)

  function Date(p: Post): int {
    p.data.date
  }

  // ---------------------------------------------------------------------------
  // The pipeline stages of getAllPosts
  // ---------------------------------------------------------------------------

  /** The `Promise.all` fan-out: each slug paired with its loaded source, in slug order. */
  function LoadAll(slugs: seq<string>, load: string -> MdxSource): (r: seq<(string, MdxSource)>)
    ensures |r| == |slugs|
    ensures forall i :: 0 <= i < |slugs| ==> r[i].0 == slugs[i] && r[i].1 == load(slugs[i])
  {
    if slugs == [] then [] else [(slugs[0], load(slugs[0]))] + LoadAll(slugs[1..], load)
  }

  /** The first `map`: keep the slug and the front matter, discard the body. */
  function ToPosts(sources: seq<(string, MdxSource)>): (r: seq<Post>)
    ensures |r| == |sources|
    ensures forall i :: 0 <= i < |sources| ==> r[i].slug == sources[i].0 && r[i].data == sources[i].1.data
  {
    if sources == [] then [] else [Post(sources[0].0, sources[0].1.data)] + ToPosts(sources[1..])
  }

  /** The `filter`: the posts whose `draft` flag is not set, in their original order. */
  function DropDrafts(posts: seq<Post>): (r: seq<Post>)
    ensures forall p :: p in r <==> p in posts && !p.data.draft
    ensures |r| <= |posts|
  {
    if posts == [] then []
    else if posts[0].data.draft then DropDrafts(posts[1..])
    else [posts[0]] + DropDrafts(posts[1..])
  }

  /** The filter keeps order and multiplicity: filtering a concatenation filters each part. */
  lemma {:induction false} DropDraftsAppend(a: seq<Post>, b: seq<Post>)
    ensures DropDrafts(a + b) == DropDrafts(a) + DropDrafts(b)
  {
    if a == [] {
      assert a + b == b;
    } else {
      assert (a + b)[0] == a[0];
      assert (a + b)[1..] == a[1..] + b;
      DropDraftsAppend(a[1..], b);
    }
  }

  /** On one entry the filter keeps it exactly when it is not a draft. */
  lemma DropDraftsSingle(p: Post)
    ensures DropDrafts([p]) == if p.data.draft then [] else [p]
  {
    assert [p][1..] == [];
  }

  /** Newest first: every entry is at least as recent as every later one. */
  predicate SortedNewestFirst(s: seq<Post>) {
    forall i, j :: 0 <= i < j < |s| ==> Date(s[i]) >= Date(s[j])
  }

  /** The entries of `s` dated `d`, in their order in `s`. */
  function WithDate(s: seq<Post>, d: int): seq<Post> {
    if s == [] then [] else (if Date(s[0]) == d then [s[0]] else []) + WithDate(s[1..], d)
  }

  /** No two entries share a slug. */
  predicate UniqueSlugs(s: seq<Post>) {
    forall i, j :: 0 <= i < j < |s| ==> s[i].slug != s[j].slug
  }

  /** Prepending an entry at least as recent as all others keeps a sequence newest first. */
  lemma ConsSorted(x: Post, s: seq<Post>)
    requires SortedNewestFirst(s)
    requires forall y :: y in s ==> Date(y) <= Date(x)
    ensures SortedNewestFirst([x] + s)
  {
    var r := [x] + s;
    forall i, j | 0 <= i < j < |r| ensures Date(r[i]) >= Date(r[j]) {
      assert r[j] == s[j - 1];
      if i > 0 { assert r[i] == s[i - 1]; } else { assert s[j - 1] in s; }
    }
  }

  lemma SortedHeadNewest(s: seq<Post>)
    requires SortedNewestFirst(s)
    ensures s != [] ==> forall y :: y in s ==> Date(y) <= Date(s[0])
  {
    forall y | y in s ensures Date(y) <= Date(s[0]) {
      var k :| 0 <= k < |s| && s[k] == y;
    }
  }

  /** One step of the stable sort: `x` goes before the first entry that is not newer than it. */
  function Insert(x: Post, l: seq<Post>): (r: seq<Post>)
    requires SortedNewestFirst(l)
    ensures SortedNewestFirst(r)
    ensures multiset(r) == multiset(l) + multiset{x}
  {
    if l == [] || Date(l[0]) <= Date(x) then
      SortedHeadNewest(l);
      ConsSorted(x, l);
      [x] + l
    else
      var tail := l[1..];
      assert l == [l[0]] + tail;
      assert SortedNewestFirst(tail);
      var r' := Insert(x, tail);
      assert forall y :: y in r' ==> Date(y) <= Date(l[0]) by {
        SortedHeadNewest(l);
        forall y | y in r' ensures Date(y) <= Date(l[0]) {
          assert y in multiset(r');
        }
      }
      ConsSorted(l[0], r');
      [l[0]] + r'
  }

  /** Inserting `x` adds it in front of the entries of its own date and leaves other dates alone. */
  lemma {:induction false} InsertWithDate(x: Post, l: seq<Post>, d: int)
    requires SortedNewestFirst(l)
    ensures WithDate(Insert(x, l), d) == if Date(x) == d then [x] + WithDate(l, d) else WithDate(l, d)
  {
    var r := Insert(x, l);
    if l == [] || Date(l[0]) <= Date(x) {
      assert r[1..] == l;
      if l != [] && Date(l[0]) == d && Date(x) != d {
        assert Date(l[0]) < Date(x);
      }
    } else {
      InsertWithDate(x, l[1..], d);
      assert r[1..] == Insert(x, l[1..]);
    }
  }

  lemma {:induction false} InsertUniqueSlugs(x: Post, l: seq<Post>)
    requires SortedNewestFirst(l) && UniqueSlugs(l)
    requires forall y :: y in l ==> y.slug != x.slug
    ensures UniqueSlugs(Insert(x, l))
  {
    var r := Insert(x, l);
    if l == [] || Date(l[0]) <= Date(x) {
      assert r == [x] + l;
      forall i, j | 0 <= i < j < |r| ensures r[i].slug != r[j].slug {
        if i == 0 { assert r[j] == l[j - 1] && l[j - 1] in l; }
        else { assert r[i] == l[i - 1] && r[j] == l[j - 1]; }
      }
    } else {
      var r' := Insert(x, l[1..]);
      InsertUniqueSlugs(x, l[1..]);
      assert r == [l[0]] + r';
      forall i, j | 0 <= i < j < |r| ensures r[i].slug != r[j].slug {
        if i == 0 {
          var y := r'[j - 1];
          assert y in multiset(r');
          if y == x {
            assert l[0] in l;
          } else {
            assert y in l[1..];
            var k :| 0 <= k < |l[1..]| && l[1..][k] == y;
            assert l[k + 1] == y;
          }
        } else {
          assert r[i] == r'[i - 1] && r[j] == r'[j - 1];
        }
      }
    }
  }

  /**
   * `posts.sort((a, b) => b.date - a.date)`: insertion sort, stable because an
   * entry is inserted before the entries of equal date that followed it.
   */
  function SortByDateDesc(s: seq<Post>): (r: seq<Post>)
    ensures SortedNewestFirst(r)
    ensures multiset(r) == multiset(s)
  {
    if s == [] then []
    else
      assert s == [s[0]] + s[1..];
      Insert(s[0], SortByDateDesc(s[1..]))
  }

  /** The sort is stable: the entries of each date keep their relative order. */
  lemma {:induction false} SortByDateDescStable(s: seq<Post>, d: int)
    ensures WithDate(SortByDateDesc(s), d) == WithDate(s, d)
  {
    if s != [] {
      var t := SortByDateDesc(s[1..]);
      SortByDateDescStable(s[1..], d);
      InsertWithDate(s[0], t, d);
      assert SortByDateDesc(s) == Insert(s[0], t);
      if Date(s[0]) == d {
        assert WithDate(s, d) == [s[0]] + WithDate(s[1..], d);
      } else {
        assert WithDate(s, d) == [] + WithDate(s[1..], d);
      }
    }
  }

  lemma {:induction false} SortByDateDescUniqueSlugs(s: seq<Post>)
    requires UniqueSlugs(s)
    ensures UniqueSlugs(SortByDateDesc(s))
  {
    if s != [] {
      var r' := SortByDateDesc(s[1..]);
      assert UniqueSlugs(s[1..]) by {
        forall i, j | 0 <= i < j < |s[1..]| ensures s[1..][i].slug != s[1..][j].slug {
          assert s[1..][i] == s[i + 1] && s[1..][j] == s[j + 1];
        }
      }
      SortByDateDescUniqueSlugs(s[1..]);
      forall y | y in r' ensures y.slug != s[0].slug {
        assert y in multiset(s[1..]);
        var k :| 0 <= k < |s[1..]| && s[1..][k] == y;
        assert s[k + 1] == y;
      }
      InsertUniqueSlugs(s[0], r');
    }
  }

  // ---------------------------------------------------------------------------
  // The catalog
  // ---------------------------------------------------------------------------

  /** Reference order before sorting: the non-draft posts, one per slug, in slug-enumeration order. */
  function Published(slugs: seq<string>, load: string -> MdxSource): seq<Post> {
    if slugs == [] then []
    else
      var data := load(slugs[0]).data;
      (if data.draft then [] else [Post(slugs[0], data)]) + Published(slugs[1..], load)
  }

  lemma {:induction false} PublishedIsFilteredLoad(slugs: seq<string>, load: string -> MdxSource)
    ensures DropDrafts(ToPosts(LoadAll(slugs, load))) == Published(slugs, load)
  {
    if slugs != [] {
      var posts := ToPosts(LoadAll(slugs, load));
      assert posts[1..] == ToPosts(LoadAll(slugs[1..], load));
      PublishedIsFilteredLoad(slugs[1..], load);
    }
  }

  /** An entry is published exactly when its slug is enumerated, its data is what was loaded for it, and it is no draft. */
  lemma {:induction false} PublishedMembership(slugs: seq<string>, load: string -> MdxSource, p: Post)
    ensures p in Published(slugs, load) <==> p.slug in slugs && p.data == load(p.slug).data && !p.data.draft
  {
    if slugs != [] {
      PublishedMembership(slugs[1..], load, p);
      assert slugs == [slugs[0]] + slugs[1..];
    }
  }

  lemma {:induction false} PublishedLength(slugs: seq<string>, load: string -> MdxSource)
    ensures |Published(slugs, load)| <= |slugs|
    ensures (forall s :: s in slugs ==> !load(s).data.draft) ==> |Published(slugs, load)| == |slugs|
  {
    if slugs != [] {
      PublishedLength(slugs[1..], load);
    }
  }

  /** The listing of `getAllPosts` once the slugs are known (lib/blog/posts.ts:8-23). */
  function CatalogOf(slugs: seq<string>, load: string -> MdxSource): (r: seq<Post>)
    ensures forall p :: p in r ==> !p.data.draft
    ensures SortedNewestFirst(r)
    ensures multiset(r) == multiset(Published(slugs, load))
    ensures forall d :: WithDate(r, d) == WithDate(Published(slugs, load), d)
    ensures forall p :: p in r <==> p.slug in slugs && p.data == load(p.slug).data && !p.data.draft
  {
    PublishedIsFilteredLoad(slugs, load);
    var published := DropDrafts(ToPosts(LoadAll(slugs, load)));
    var r := SortByDateDesc(published);
    forall d ensures WithDate(r, d) == WithDate(published, d) {
      SortByDateDescStable(published, d);
    }
    forall p ensures p in r <==> p.slug in slugs && p.data == load(p.slug).data && !p.data.draft {
      assert p in r <==> p in multiset(r);
      PublishedMembership(slugs, load, p);
    }
    r
  }

  /** At most one entry per slug; exactly one per slug when nothing is a draft. */
  lemma CatalogLength(slugs: seq<string>, load: string -> MdxSource)
    ensures |CatalogOf(slugs, load)| <= |slugs|
    ensures (forall s :: s in slugs ==> !load(s).data.draft) ==> |CatalogOf(slugs, load)| == |slugs|
  {
    var r := CatalogOf(slugs, load);
    assert |multiset(r)| == |multiset(Published(slugs, load))|;
    PublishedLength(slugs, load);
  }

  lemma WithDateHead(s: seq<Post>)
    ensures s != [] ==> WithDate(s, Date(s[0])) == [s[0]] + WithDate(s[1..], Date(s[0]))
  {
  }

  lemma {:induction false} WithDateElements(s: seq<Post>, d: int, p: Post)
    requires p in WithDate(s, d)
    ensures p in s && Date(p) == d
  {
    if s != [] && !(Date(s[0]) == d && p == s[0]) {
      WithDateElements(s[1..], d, p);
    }
  }

  /** Two newest-first sequences with the same entries of each date, in the same order, are equal. */
  lemma {:induction false} StableSortUnique(a: seq<Post>, b: seq<Post>)
    requires SortedNewestFirst(a) && SortedNewestFirst(b)
    requires forall d :: WithDate(a, d) == WithDate(b, d)
    ensures a == b
  {
    WithDateHead(a);
    WithDateHead(b);
    if a != [] && b != [] {
      var da, db := Date(a[0]), Date(b[0]);
      var ya := WithDate(b, da)[0];
      var yb := WithDate(a, db)[0];
      WithDateElements(b, da, ya);
      WithDateElements(a, db, yb);
      assert da == db;
      assert a[0] == b[0];
      forall d ensures WithDate(a[1..], d) == WithDate(b[1..], d) {
        assert WithDate(a, d) == (if Date(a[0]) == d then [a[0]] else []) + WithDate(a[1..], d);
        assert WithDate(b, d) == (if Date(b[0]) == d then [b[0]] else []) + WithDate(b[1..], d);
        assert WithDate(a, d) == WithDate(b, d);
        if Date(a[0]) == d {
          assert WithDate(a[1..], d) == WithDate(a, d)[1..];
          assert WithDate(b[1..], d) == WithDate(b, d)[1..];
        } else {
          assert WithDate(a[1..], d) == WithDate(a, d);
          assert WithDate(b[1..], d) == WithDate(b, d);
        }
      }
      assert SortedNewestFirst(a[1..]) && SortedNewestFirst(b[1..]);
      StableSortUnique(a[1..], b[1..]);
      assert a == [a[0]] + a[1..] && b == [b[0]] + b[1..];
    }
  }

  /**
   * The catalog is what any stable newest-first sort of the published posts
   * returns, so it equals the result of `Array.prototype.sort` (stable since
   * ECMAScript 2019): equal dates keep slug-enumeration order.
   */
  lemma CatalogIsStableSortOfPublished(slugs: seq<string>, load: string -> MdxSource, sorted: seq<Post>)
    requires SortedNewestFirst(sorted)
    requires forall d :: WithDate(sorted, d) == WithDate(Published(slugs, load), d)
    ensures sorted == CatalogOf(slugs, load)
  {
    StableSortUnique(sorted, CatalogOf(slugs, load));
  }

  predicate DistinctSlugs(slugs: seq<string>) {
    forall i, j :: 0 <= i < j < |slugs| ==> slugs[i] != slugs[j]
  }

  lemma {:induction false} PublishedUniqueSlugs(slugs: seq<string>, load: string -> MdxSource)
    requires DistinctSlugs(slugs)
    ensures UniqueSlugs(Published(slugs, load))
  {
    if slugs != [] {
      var rest := Published(slugs[1..], load);
      PublishedUniqueSlugs(slugs[1..], load);
      forall p | p in rest ensures p.slug != slugs[0] {
        PublishedMembership(slugs[1..], load, p);
      }
    }
  }

  /** Distinct slugs (distinct globbed files) give a catalog without two entries for one slug. */
  lemma CatalogUniqueSlugs(slugs: seq<string>, load: string -> MdxSource)
    requires DistinctSlugs(slugs)
    ensures UniqueSlugs(CatalogOf(slugs, load))
  {
    PublishedIsFilteredLoad(slugs, load);
    PublishedUniqueSlugs(slugs, load);
    SortByDateDescUniqueSlugs(Published(slugs, load));
  }

  // ---------------------------------------------------------------------------
  // getAllPosts and getPost
  // ---------------------------------------------------------------------------

  /** The loader `getAllPosts` uses: `loadMdxFromSlug` over a file reader. */
  function SlugLoader(read: string -> MdxSource, blogPath: string): string -> MdxSource {
    slug => LoadMdxFromSlug(read, blogPath, slug)
  }

  /**
   * `getAllPosts`: resolve the globbed paths to slugs, load and list them.
   * None is the rejection `findAllPostSlugs` causes when a path has no slug.
   */
  function GetAllPosts(blogPath: string, paths: seq<string>, read: string -> MdxSource): (r: Option<seq<Post>>)
    ensures r.Some? <==> forall i :: 0 <= i < |paths| ==> GetSlug(paths[i]).Some?
    ensures r.Some? ==> SortedNewestFirst(r.value) && forall p :: p in r.value ==> !p.data.draft
  {
    match FindAllPostSlugs(paths)
    case None => None
    case Some(slugs) => Some(CatalogOf(slugs, SlugLoader(read, blogPath)))
  }

  /**
   * Files globbed under distinct plain names give a listing without two
   * entries for one slug. Names that are not plain can collide: the slug of
   * "x\nab.mdx" is "ab", the same as that of "ab.mdx".
   */
  lemma GetAllPostsUniqueSlugs(blogPath: string, names: seq<string>, paths: seq<string>, read: string -> MdxSource)
    requires |paths| == |names| && DistinctSlugs(names)
    requires forall i :: 0 <= i < |names| ==> IsPlainName(names[i]) && paths[i] == GetPath(blogPath, names[i])
    ensures GetAllPosts(blogPath, paths, read).Some?
    ensures UniqueSlugs(GetAllPosts(blogPath, paths, read).value)
  {
    FindAllPostSlugsOfPaths(blogPath, names, paths);
    CatalogUniqueSlugs(names, SlugLoader(read, blogPath));
  }

  /**
   * Every listed post is a globbed file's slug paired with the front matter
   * read from that slug's path, and every such non-draft pair is listed.
   */
  lemma GetAllPostsMembership(blogPath: string, paths: seq<string>, read: string -> MdxSource, p: Post)
    requires GetAllPosts(blogPath, paths, read).Some?
    ensures p in GetAllPosts(blogPath, paths, read).value <==>
      && (exists i :: 0 <= i < |paths| && GetSlug(paths[i]) == Some(p.slug))
      && p.data == read(GetPath(blogPath, p.slug)).data
      && !p.data.draft
  {
    var slugs := FindAllPostSlugs(paths).value;
    if p.slug in slugs {
      var i :| 0 <= i < |slugs| && slugs[i] == p.slug;
      assert GetSlug(paths[i]) == Some(p.slug);
    }
    if exists i :: 0 <= i < |paths| && GetSlug(paths[i]) == Some(p.slug) {
      var i :| 0 <= i < |paths| && GetSlug(paths[i]) == Some(p.slug);
      assert slugs[i] == p.slug;
    }
  }

  /** `getPost`: the content and front matter of the slug's file, as parsed and without a draft check. */
  function GetPost(blogPath: string, read: string -> MdxSource, slug: string): (r: PostDetail)
    ensures r.content == read(GetPath(blogPath, slug)).content
    ensures r.frontMatter == read(GetPath(blogPath, slug)).data
  {
    var source := LoadMdxFromSlug(read, blogPath, slug);
    PostDetail(source.content, source.data)
  }

  /** The listing and the detail view agree on every listed post's front matter. */
  lemma ListingAgreesWithGetPost(blogPath: string, paths: seq<string>, read: string -> MdxSource, p: Post)
    requires GetAllPosts(blogPath, paths, read).Some?
    requires p in GetAllPosts(blogPath, paths, read).value
    ensures GetPost(blogPath, read, p.slug).frontMatter == p.data
  {
    GetAllPostsMembership(blogPath, paths, read, p);
  }

  /** A draft is left out of the listing but `getPost` still returns it, draft flag and all. */
  lemma DraftOnlyThroughGetPost(blogPath: string, paths: seq<string>, read: string -> MdxSource, slug: string)
    requires read(GetPath(blogPath, slug)).data.draft
    requires GetAllPosts(blogPath, paths, read).Some?
    ensures GetPost(blogPath, read, slug).frontMatter.draft
    ensures forall p :: p in GetAllPosts(blogPath, paths, read).value ==> p.slug != slug
  {
    forall p | p in GetAllPosts(blogPath, paths, read).value ensures p.slug != slug {
      GetAllPostsMembership(blogPath, paths, read, p);
    }
  }
}
