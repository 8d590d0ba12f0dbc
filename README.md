# Blog listing pipeline of a personal website, in Dafny

This project models the only stateable logic of a Next.js portfolio-and-blog
site: how the blog's posts are discovered, listed and paged.

- **Slug resolution and paths** (`src/lib/blog/utils.ts`, module `BlogUtils`).
  A post file is `<BLOG_PATH>/<slug>.mdx`. `getSlug` applies the regular
  expression `/.+(?=.mdx)/i` to the basename of a globbed path. The model
  follows JavaScript's semantics, reading the basename as code points: the leftmost start, the longest (greedy)
  match there, `.` excluding the four line terminators, the unescaped dot of
  the lookahead accepting any such character, and "mdx" in any letter case.
  `exec` returning null makes the destructuring throw; that is `None`.
  `getPath` joins the blog directory and `<slug>.mdx`. `findAllPostSlugs`
  maps `getSlug` over the globbed paths and fails as a whole if one path fails.
- **Post catalog** (`lib/blog/posts.ts`, module `BlogPosts`). `getAllPosts`
  loads each slug's front matter and keeps each slug paired with its data.
  It drops drafts and sorts newest first with a stable sort. The sort is an
  insertion sort here, and `CatalogIsStableSortOfPublished` proves that every
  stable newest-first sort gives the same result, so the model agrees with
  `Array.prototype.sort` (stable since ECMAScript 2019). `getPost` returns one
  file's content and front matter as parsed.
- **Page numbers** (`src/app/blog/page.tsx`, module `BlogPage`). `page` goes
  through `Number.parseInt`: leading white space is skipped, an optional sign
  is read, "0x" selects base 16, and the longest digit prefix is converted.
  An explicit 0 redirects to `/blog`. NaN means page 0. A page above
  `ceil(n/3) - 1` redirects to `/blog`. Page size is 3, and `ceil(n/3)` is
  `(n + 2) / 3` on naturals. `redirect` is a returned `Outcome`, not a throw.

Reading files is abstracted as a total function `read` from path to parsed
source (`MdxSource`: body text and front matter). The glob result is a
parameter `paths` and the blog directory a parameter `blogPath`. Dates are
integer timestamps.

In three places the code does something a reader may not expect, and the model follows the code:
- `getPost` does no draft check and returns a draft's front matter unchanged.
  The 404 for drafts lives in the post page, which is not part of this model.
- A slug is not "the file name without its extension". It is the regex match
  above. For a basename `x + ".mdx"` with `x` plain it is `x`, and for a
  basename starting with a line terminator it is not a prefix.
- The page bound is upper-only, so a negative page such as `?page=-1` renders.

## Model

| member | source | states |
|---|---|---|
| `BlogUtils.AfterLastSlashIsLastSegment` | src/lib/blog/utils.ts:9 | the basename is the suffix of the path after its last '/' |
| `BlogUtils.Basename` | src/lib/blog/utils.ts:9 | a basename never contains '/' |
| `BlogUtils.Join` | src/lib/blog/utils.ts:20 | `path.join` of a directory and a file name starts with the directory and ends with the name, with one '/' between them exactly when the directory is non-empty and does not already end in '/' |
| `BlogUtils.BasenameOfJoin` | src/lib/blog/utils.ts:19-21 | the basename of a directory joined with a plain file name is that file name |
| `BlogUtils.ExecFrom` | src/lib/blog/utils.ts:9 | `exec` returns a match of `.+(?=.mdx)` with no match starting further left and none longer at that start; None only when no match starts at or after the given position |
| `BlogUtils.MatchSlugPattern` | src/lib/blog/utils.ts:9 | the regex succeeds exactly when some match exists; the match is non-empty, free of line terminators, occurs in the basename, and is a prefix of it when the basename has no line terminator |
| `BlogUtils.GetSlug` | src/lib/blog/utils.ts:8-11 | a slug is non-empty and holds neither '/' nor a line terminator, and it occurs in the path's basename, so no directory component reaches it |
| `BlogUtils.SlugPatternStripsExtension` | src/lib/blog/utils.ts:9 | for a plain `name`, any wildcard character `c` and any letter case of "mdx", the match of `name + c + ext` is exactly `name` (greedy) |
| `BlogUtils.SlugPatternGreedyExample` | src/lib/blog/utils.ts:9 | greedy: "a.b.mdx" gives "a.b" |
| `BlogUtils.SlugPatternCaseExample` | src/lib/blog/utils.ts:9 | case-insensitive: "Post.MDX" gives "Post" |
| `BlogUtils.SlugPatternWildcardExample` | src/lib/blog/utils.ts:9 | the unescaped dot matches any character: "fooxmdx" gives "foo" |
| `BlogUtils.SlugPatternNeedsFiveCharacters` | src/lib/blog/utils.ts:9 | a basename of at most four characters (code points) has no match |
| `BlogUtils.SlugPatternNeedsAnX` | src/lib/blog/utils.ts:9 | a basename without 'x' or 'X' has no match |
| `BlogUtils.SlugPatternFailures` | src/lib/blog/utils.ts:9-10 | "notes.md" and ".mdx" have no match, so `getSlug` throws on them |
| `BlogUtils.SlugPatternSkipsLineTerminator` | src/lib/blog/utils.ts:9 | a leading newline is skipped: "\nab.mdx" gives "ab" |
| `BlogUtils.SlugPatternAfterLineTerminator` | src/lib/blog/utils.ts:9 | "x\nab.mdx" gives "ab", the slug of "ab.mdx" too, so two globbed files can share one slug |
| `BlogUtils.GetPath` | src/lib/blog/utils.ts:19-21 | the path starts with the blog directory, ends with `slug + ".mdx"`, and between them holds nothing or one separator (no overlap) |
| `BlogUtils.LoadMdxFromSlugReadsGlobbedFile` | src/lib/blog/utils.ts:23-27 | `loadMdxFromSlug` of the slug of a globbed `<name>.mdx` (plain name) reads that very file |
| `BlogUtils.GetSlugOfGetPath` | src/lib/blog/utils.ts:8-21 | round trip: `getSlug(getPath(s)) == s` for every plain slug `s` and every blog directory |
| `BlogUtils.GetPathInjective` | src/lib/blog/utils.ts:19-21 | distinct plain slugs have distinct paths |
| `BlogUtils.FindAllPostSlugs` | src/lib/blog/utils.ts:13-17 | succeeds exactly when every path has a slug, and then gives one slug per path, in path order |
| `BlogUtils.FindAllPostSlugsOfPaths` | src/lib/blog/utils.ts:13-17 | paths of the form `getPath(name)` resolve to exactly their names, in order |
| `BlogPosts.LoadAll` | lib/blog/posts.ts:8-13 | the fan-out keeps input order: entry i pairs slug i with what was loaded for slug i |
| `BlogPosts.ToPosts` | lib/blog/posts.ts:15-18 | entry i keeps the slug of source i paired with that source's front matter |
| `BlogPosts.DropDrafts` | lib/blog/posts.ts:19 | an entry survives exactly when it was present and is not a draft |
| `BlogPosts.DropDraftsAppend` | lib/blog/posts.ts:19 | the filter keeps order and multiplicity: filtering a concatenation is the concatenation of the filtered parts |
| `BlogPosts.DropDraftsSingle` | lib/blog/posts.ts:19 | on one entry the filter keeps it exactly when it is no draft (with `DropDraftsAppend` this determines the filter) |
| `BlogPosts.Insert` | lib/blog/posts.ts:21-23 | inserting into a newest-first list keeps it newest first and adds exactly one entry |
| `BlogPosts.InsertWithDate` | lib/blog/posts.ts:21-23 | the inserted entry goes in front of the entries of its own date; other dates are untouched |
| `BlogPosts.InsertUniqueSlugs` | lib/blog/posts.ts:21-23 | inserting an entry with a new slug keeps slugs unique |
| `BlogPosts.SortByDateDesc` | lib/blog/posts.ts:21-23 | the result is newest first and a permutation of the input |
| `BlogPosts.SortByDateDescStable` | lib/blog/posts.ts:21-23 | the sort is stable: for each date, the entries of that date keep their input order |
| `BlogPosts.SortByDateDescUniqueSlugs` | lib/blog/posts.ts:21-23 | sorting keeps slugs unique |
| `BlogPosts.StableSortUnique` | lib/blog/posts.ts:21-23 | two newest-first sequences with the same entries of every date, in the same order, are equal |
| `BlogPosts.PublishedIsFilteredLoad` | lib/blog/posts.ts:8-19 | map, map and filter give the non-draft loaded posts in slug order |
| `BlogPosts.PublishedMembership` | lib/blog/posts.ts:9-19 | an entry is published exactly when its slug is enumerated, its data is what was loaded for that slug, and it is no draft |
| `BlogPosts.PublishedLength` | lib/blog/posts.ts:6-19 | at most one published entry per slug, exactly one each when no post is a draft |
| `BlogPosts.PublishedUniqueSlugs` | lib/blog/posts.ts:9-19 | distinct slugs give published entries with distinct slugs |
| `BlogPosts.CatalogOf` | lib/blog/posts.ts:8-23 | the listing has no draft, is newest first, is a permutation of the published posts, keeps their order within each date, and holds an entry exactly when its slug is enumerated with its own loaded data and no draft flag |
| `BlogPosts.CatalogLength` | lib/blog/posts.ts:6-23 | the listing is no longer than the slug list, and as long as it when no post is a draft |
| `BlogPosts.CatalogIsStableSortOfPublished` | lib/blog/posts.ts:8-23 | any newest-first sequence that keeps each date's published entries in slug order equals the listing, so any stable sort gives it |
| `BlogPosts.CatalogUniqueSlugs` | lib/blog/posts.ts:5-24 | distinct slugs give a listing without two entries for one slug |
| `BlogPosts.GetAllPosts` | lib/blog/posts.ts:5-24 | fails exactly when some globbed path has no slug; otherwise the listing is newest first and has no draft |
| `BlogPosts.GetAllPostsMembership` | lib/blog/posts.ts:5-24 | a post is listed exactly when its slug comes from a globbed path, its data is the front matter read at that slug's path, and it is no draft |
| `BlogPosts.GetAllPostsUniqueSlugs` | lib/blog/posts.ts:5-24 | files globbed under distinct plain names give a listing without two entries for one slug |
| `BlogPosts.GetPost` | lib/blog/posts.ts:26-34 | the content and front matter are those of the slug's file, unchanged |
| `BlogPosts.ListingAgreesWithGetPost` | lib/blog/posts.ts:26-34 | for every listed post, `getPost` returns the front matter the listing shows |
| `BlogPosts.DraftOnlyThroughGetPost` | lib/blog/posts.ts:26-34 | a draft is absent from the listing, yet `getPost` returns it with its draft flag |
| `BlogPage.TrimStart` | src/app/blog/page.tsx:17 | the result does not start with white space and everything dropped before it is white space |
| `BlogPage.TrimStartIsSuffix` | src/app/blog/page.tsx:17 | trimming only removes a prefix: the result is the tail of the input |
| `BlogPage.TrimStartAfterWhiteSpace` | src/app/blog/page.tsx:17 | white space followed by a string that does not start with white space trims to exactly that string |
| `BlogPage.DigitPrefix` | src/app/blog/page.tsx:17 | the longest prefix made of digits of the radix |
| `BlogPage.DigitPrefixOfDigits` | src/app/blog/page.tsx:17 | the digit prefix of digits followed by a non-digit is those digits |
| `BlogPage.DigitsValueAppendDigit` | src/app/blog/page.tsx:17 | positional notation: one more digit on the right multiplies the value by the radix and adds that digit |
| `BlogPage.DigitsValueNonNegative` | src/app/blog/page.tsx:17 | a digit string denotes a non-negative value |
| `BlogPage.ParseInt` | src/app/blog/page.tsx:17 | `Number.parseInt` with no radix: a negative result only comes from a '-' after the leading white space |
| `BlogPage.ParseIntSigned` | src/app/blog/page.tsx:17 | leading white space, then no sign, '+' or '-', then decimal digits and any non-digit: the value of the digits, negated exactly after '-' |
| `BlogPage.ParseIntHex` | src/app/blog/page.tsx:17 | leading white space, no sign, '+' or '-', then "0x" or "0X", hexadecimal digits and any non-digit: the digits read in base 16, negated exactly after '-', and NaN when no digit follows the prefix |
| `BlogPage.ParseIntNoDigits` | src/app/blog/page.tsx:17 | leading white space and an optional sign followed by no digit give NaN |
| `BlogPage.ParseSignedExamples` | src/app/blog/page.tsx:17 | "-1" parses to -1 and " +2" to 2 |
| `BlogPage.ParseHexExample` | src/app/blog/page.tsx:17 | "0x1F" parses to 31 |
| `BlogPage.ParseNegativeHexExample` | src/app/blog/page.tsx:17 | "-0x1F" parses to -31 |
| `BlogPage.ParseHexWithoutDigits` | src/app/blog/page.tsx:17 | "0xg" parses to NaN |
| `BlogPage.ParseNoDigitExamples` | src/app/blog/page.tsx:17 | "abc" and " -a" parse to NaN |
| `BlogPage.LeadingDecimalDigits` | src/app/blog/page.tsx:17 | a parameter starting with decimal digits parses to their value, whatever follows the first non-digit |
| `BlogPage.ParseTwoAbc` | src/app/blog/page.tsx:17 | "2abc" parses to 2 |
| `BlogPage.PageCount` | src/app/blog/page.tsx:27 | `ceil(n/3)`: the least c with n <= 3c |
| `BlogPage.ParsedPage` | src/app/blog/page.tsx:17 | `searchParams.page ?? ""`: a missing or empty parameter parses to NaN |
| `BlogPage.BlogPage` | src/app/blog/page.tsx:17-29 | every redirect goes to /blog; the page renders exactly when the parsed value is not an explicit 0 and 3 times the page (0 for NaN) is below the number of posts, and then it renders that page |
| `BlogPage.MissingPageIsFirstPage` | src/app/blog/page.tsx:17-24 | an absent or non-numeric `page` shows page 0 of a non-empty blog |
| `BlogPage.ExplicitZeroRedirects` | src/app/blog/page.tsx:19-22 | a `page` that parses to 0 always redirects to /blog |
| `BlogPage.PageBeyondLastRedirects` | src/app/blog/page.tsx:26-29 | a page above `ceil(n/3) - 1` redirects to /blog |
| `BlogPage.PageInRangeRenders` | src/app/blog/page.tsx:24-29 | a page from 1 to `ceil(n/3) - 1` renders with exactly that number |
| `BlogPage.NegativePageRenders` | src/app/blog/page.tsx:26-29 | a negative page passes the upper-only bound and renders |
| `BlogPage.SevenPosts` | src/app/blog/page.tsx:17-29 | seven posts make three pages: `?page=2` renders page 2 and `?page=3` redirects |
| `BlogPage.RedirectTargetRenders` | src/app/blog/page.tsx:17-29 | with at least one post, the redirect target /blog renders page 0 |
| `BlogPage.EmptyBlogRedirectsToItself` | src/app/blog/page.tsx:26-29 | with no posts, every request without a negative page, bare /blog included, redirects to /blog |
| `BlogPage.BlogPageCorrected` | src/app/blog/page.tsx:26-29 | as `BlogPage`, but a non-positive page is never above the last page, so page 0 of an empty blog renders |
| `BlogPage.CorrectedRedirectTargetRenders` | src/app/blog/page.tsx:26-29 | in the corrected route, /blog renders page 0 for any number of posts |
| `BlogPage.CorrectedAgreesWithPosts` | src/app/blog/page.tsx:26-29 | the correction changes nothing when there is at least one post |

## Findings

| source | as written | input that shows it | evidently intended | confidence | as-written member | corrected member |
|---|---|---|---|---|---|---|
| src/app/blog/page.tsx:26-29 | with no posts the bound `ceil(0/3) - 1` is -1, so page 0 is out of bounds and `/blog` redirects to `/blog` | zero posts, a request for `/blog` with no `page` parameter | an empty blog shows an empty first page; the redirect target never redirects again | not executed; high | `BlogPage.EmptyBlogRedirectsToItself` | `BlogPage.BlogPageCorrected` |

## Left out

- File-system access (`fs.readFile`, `tiny-glob`) and the derivation of `BLOG_PATH` from `process.cwd()`: I/O. The glob result, the directory and a total `read` function are parameters.
- Read and parse failures (a missing file, malformed front matter): `read` is total, so the model does not cover a catalog build that fails on one bad file.
- `gray-matter` parsing and `new Date(...)`: foreign libraries. Front matter is a parsed record and dates are integer timestamps. NaN dates, which would make the comparator inconsistent, are not modelled.
- `Promise.all` concurrency: results are joined in input order, so the fan-out is a sequential map.
- UTF-16 code units: the model reads strings as code points, and the regex, which has no `u` flag, reads UTF-16 code units. The match differs only when a character outside the Basic Multilingual Plane is the wildcard just before "mdx". For example, JavaScript matches "a" plus a lone high surrogate in "a😀mdx", and the model matches "a". `SlugPatternNeedsFiveCharacters` counts code points, so "😀mdx" has no match in the model but does in JavaScript. Globbed `<name>.mdx` files are unaffected, because there the wildcard is the '.'.
- Windows path semantics: `Basename` and `Join` follow POSIX `path`, where only '/' separates segments. On Windows `path.basename` also splits on a backslash and `path.join` inserts one.
- Slug collisions: two globbed files whose names differ only before a line terminator ("x\nab.mdx" and "ab.mdx") share a slug, and both entries then load `ab.mdx`. `GetAllPostsUniqueSlugs` promises unique slugs only for plain names.
- `path.join` normalisation of `.`, `..` and repeated separators: `Join` joins a directory with one file name. `GetSlugOfGetPath` covers the plain slugs (no '/', no line terminator) it is exact for.
- `Number.parseInt` on values beyond 2^53: JavaScript rounds them to the nearest double, and the model keeps exact integers. A repeated `page` parameter, which arrives as an array, is not modelled.
- Next.js `redirect` throws to end rendering. Here it is a returned `Outcome`.
- `PaginatedPosts`, tag listing (`getAllTags`, `getTagPosts`) and heading ids: not among the modelled files.
- Rendering and UI: the post list and its date formatting, the post detail page with its draft 404, the Open Graph image route, particles, icons, static data and the test-runner configuration.
