# Blog content layer in Dafny

This project models the content-shaping layer of a statically generated
Next.js blog. Every page of the blog calls this layer. The model covers two
pieces of the code.

- `lib/api.js`: `fetchAllContent` keeps the published items of the remote
  content feed, newest first. `getAllPosts` turns each item into a post and
  fills in defaults. The other operations derive views from the post list:
  - `getPostBySlug` looks up one post;
  - `getAllCategories` counts the normalised category names in a `Map`;
  - `getPostsByCategory`, `getAllPostSlugs`, `getRelatedPosts` and
    `getFeaturedPosts` filter, project and slice the list.
- `lib/contentParser.js`: the file-name-to-slug chain of `getSinglePage`.

The network response and the directory listing are inputs:
`Api.Response` (`Rejected | NotOk(status) | Json(items)`) and a
`seq<string>` of file names. `fetchAllContent` performs the fetch and
`getAllPosts` awaits it; every other exported operation in `lib/api.js`
starts with `await getAllPosts()`. In the model, `FetchAllContent` and `GetAllPosts`
take the response. The other operations take the list that call yields, as
`posts`. Lemmas that need that list to be the fetched one take the response.

Files:

- `wrappers.dfy`: `Option`, which stands for `undefined`/`null`.
- `js_array.dfy`: `Array.prototype.filter` and `slice(0, end)`, with
  JavaScript's handling of a negative `end`.
- `api.dfy`: `lib/api.js`. `getAllCategories` is an imperative method. It
  uses a dictionary and an insertion-ordered key list, which is how a
  JavaScript `Map` behaves. It is proved equal to a reference definition,
  `CategoryIndex`, built from "distinct names in first-seen order" and
  "occurrence count". The other operations are functions, like the
  `filter`/`map`/`find`/`slice` chains they model.
- `content_parser.dfy`: the `filter` -> `map` -> `filter(Boolean)` chain of
  `getSinglePage`.
- `post_single.dfy`: the category links of the post page. They use the same
  normalisation, so they land on the pages that `getAllCategories` lists.

What the code does, where a reader might expect more:

- Every call fetches the feed again; there is no cache.
- `getFeaturedPosts` takes the first `limit` posts of the newest-first list
  and returns copies marked featured.
- `getAllCategories` returns `{ name, posts }` entries in the order the names
  first occur.
- `getAllPosts` copies `metaDescription` into `description` and copies
  `author` as given. It always sets `featured` and `draft` to false.
- `getPostBySlug` returns the first post with the slug.
- `searchPosts` and `getSiteStats` are imported by some pages, but
  `lib/api.js` does not define them.

## Model

| member | source | states |
|---|---|---|
| `JsArray.Filter` | lib/api.js:19 | the result is no longer than the input; every kept element is in the input and passes the test; every input element that passes is kept |
| `JsArray.FilterConcat` | lib/api.js:94-98 | filtering distributes over concatenation, so a filter keeps source order |
| `JsArray.Prefix` | lib/api.js:128 | `slice(0, end)` is a prefix; its length follows JavaScript's clamping, and a negative `end` counts from the end |
| `Api.InsertByDate` | lib/api.js:20 | inserting into a newest-first list keeps it newest-first and adds exactly one element |
| `Api.SortNewestFirst` | lib/api.js:20 | the sort result is newest-first and a permutation of its input |
| `Api.SortNewestFirstStable` | lib/api.js:20 | the sort is stable: items with the same date keep their input order |
| `Api.FetchAllContent` | lib/api.js:9-25 | a failed or not-ok response gives `[]`; a success gives exactly the published items (as a multiset: none dropped, none added), all published, newest first |
| `Api.FetchAllContentStable` | lib/api.js:18-20 | published items with equal dates appear in response order, so the result is fully determined |
| `Api.ToPost` | lib/api.js:34-48 | the slug and date are copied; missing categories and tags become `[]`; missing content becomes `""`; `featured` and `draft` are false; the other fields are copied |
| `Api.GetAllPosts` | lib/api.js:31-49 | one post per fetched item, in the same order, each keeping its item's slug |
| `Api.GetAllPostsNewestFirst` | lib/api.js:31-48 | post dates never increase along the list, and a failed fetch gives no posts |
| `Api.GetAllPostsSlugs` | lib/api.js:18-35 | a post with slug `s` exists iff the response succeeded and holds a published item with slug `s` |
| `Api.GetPostBySlug` | lib/api.js:56-59 | the result is `None` iff no post has the slug; otherwise it is the first post with that slug |
| `Api.ToLowerChar` | lib/api.js:71 | an upper-case ASCII letter becomes the lower-case letter at the same alphabet position; any other character is kept |
| `Api.ToLowerCase` | lib/api.js:71 | the result has the input's length and lower-cases it character by character, so it has no upper-case letter and has whitespace exactly where the input does |
| `Api.ReplaceWhitespaceRuns` | lib/api.js:71 | the result has no whitespace, is no longer than the input, and has no upper-case letter when the input has none |
| `Api.ReplaceWhitespaceRunsChars` | lib/api.js:71 | every character of the result is a hyphen or a character of the input |
| `Api.ReplaceWhitespaceRunsOfRun` | lib/api.js:71 | a non-empty run of whitespace becomes a single `-` |
| `Api.ReplaceWhitespaceRunsIdentity` | lib/api.js:71 | text without whitespace is left unchanged |
| `Api.SkipWhitespaceConcat` | lib/api.js:71 | a run that starts in `x` stops inside `x` unless `x` is all whitespace, in which case it continues into `y` |
| `Api.ReplaceWhitespaceRunsConcat` | lib/api.js:71 | the replacement of `a + b` is the replacement of `a` followed by that of `b`, whenever the split does not cut a whitespace run in two |
| `Api.NormalizeCategory` | lib/api.js:71 | a category slug contains no whitespace and no upper-case letter and is no longer than the name |
| `Api.NormalizeCategoryIdempotent` | lib/api.js:71 | normalising a slug again leaves it unchanged |
| `Api.TallyStep` | lib/api.js:72-76 | one has/get/set step on the map keeps it the tally of the names seen so far, appending a new key at the end |
| `Api.GetAllCategories` | lib/api.js:65-84 | the nested loop over posts and categories returns the reference index: distinct normalised names in first-seen order, each with its occurrence count |
| `Api.CategoryIndexEntries` | lib/api.js:67-83 | no name is listed twice; each count is the name's number of occurrences and at least 1; a name is listed iff some category normalises to it |
| `Api.CategoryIndexTotal` | lib/api.js:69-78 | the counts sum to the number of category occurrences across all posts |
| `Api.CategoryIndexFirstSeen` | lib/api.js:80-83 | the entries come in the order of each name's first occurrence |
| `Api.GetPostsByCategory` | lib/api.js:91-99 | the result holds exactly the posts with a category that normalises to the slug, and is no longer than the list |
| `Api.CategoryPagesAgree` | lib/api.js:65-98 | a slug is listed by `getAllCategories` iff its category page has posts, and the page never has more posts than the listed count |
| `Api.GetAllPostSlugs` | lib/api.js:105-108 | one slug per post, in order |
| `Api.SlugsResolve` | lib/api.js:56-108 | a slug is listed iff `getPostBySlug` finds a post for it, and the post found carries that slug |
| `Api.GetRelatedPosts` | lib/api.js:116-129 | a prefix of the related posts, at most `limit` long; none has the current post's slug; each shares an exact category string with it; when fewer than `limit` are returned, no related post is missing |
| `Api.GetFeaturedPosts` | lib/api.js:136-145 | `min(limit, |posts|)` posts for a non-negative limit, following `slice` otherwise; each is marked featured; resetting the flag gives back the source post |
| `Api.FeaturedAreNewest` | lib/api.js:136-144 | over the fetched list, every featured post is at least as new as every post left out |
| `ContentParser.StripExtension` | lib/contentParser.js:39 | the name plus the removed `.md`/`.mdx` gives back the file name; other names are unchanged |
| `ContentParser.Present` | lib/contentParser.js:45 | `filter(Boolean)` keeps exactly the non-null records |
| `ContentParser.GetSinglePage` | lib/contentParser.js:32-48 | the slug list is no longer than the listing |
| `ContentParser.GetSinglePageSound` | lib/contentParser.js:36-45 | every slug is not `_index`, and the slug plus `.md` or `.mdx` is a file of the listing |
| `ContentParser.GetSinglePageComplete` | lib/contentParser.js:36-45 | every `.md`/`.mdx` file whose stripped name is not `_index` yields its slug |
| `ContentParser.IndexFileSkipped` | lib/contentParser.js:40-42 | `_index.md` and `_index.mdx` produce no entry |
| `ContentParser.GetSinglePageConcat` | lib/contentParser.js:36-45 | the listing is processed file by file, so listing order is kept |
| `PostSingle.CategoryHref` | layouts/PostSingle.js:78 | a category link lives under `/categories/` |
| `PostSingle.CategoryLinksResolve` | layouts/PostSingle.js:147 | the link to any category of a post names a category that `getAllCategories` lists, and that category's page shows the post |

## Left out

- The HTTP request, `response.json()` and the `console.error` call (lib/api.js:11-15, 22). These are I/O. Their outcome is the input `Response`, and every failure case maps to `[]`.
- Date parsing. `publishDate` is an integer timestamp. The comparator's behaviour on invalid dates (`NaN`) is not modelled.
- Api.ToLowerCase: only ASCII letters are lower-cased. JavaScript's full Unicode case mapping, including mappings that change length, is not modelled. `\s` is modelled with JavaScript's complete whitespace set.
- Api.GetRelatedPosts: the default `limit = 3` for an omitted argument is not modelled. Every caller passes a limit. Non-integer limits are not modelled either.
- Api.GetFeaturedPosts: the default `limit = 6` for an omitted argument is not modelled. Every caller passes a limit. Non-integer limits are not modelled either.
- A `null` or non-object element of the JSON array is not modelled: `item.status` throws at lib/api.js:19 and the `catch` at lines 21-23 turns the whole feed into `[]`. `Json(items: seq<RawItem>)` holds only records.
- An item without a `slug` is not modelled: `slug` is a plain string in `RawItem`, so every post has one.
- JSON fields of the wrong type are not modelled, for example a non-array `categories` or a non-string category name. Optional fields are `Option`s of the expected type.
- The source posts stay unchanged under `getFeaturedPosts`. In the model this follows from value semantics, so no lemma states it.
- `getListPage`, `getRegularPage` and the file reads, `gray-matter` parsing and `parseMDX` calls in lib/contentParser.js:8-30 are not modelled. The `readdirSync` at line 34 becomes the `files` input. These are filesystem I/O and foreign libraries.
- The pages, layouts, components, sitemap, SEO tags, context state and Next.js configuration are not modelled. They are rendering and configuration. Only the category `href` of layouts/PostSingle.js is modelled.
