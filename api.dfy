/**
 * The content-shaping layer of the blog (lib/api.js).
 *
 * `fetchAllContent` fetches the remote content endpoint and `getAllPosts`
 * awaits it; every other exported operation begins with `await getAllPosts()`.
 * The fetch is an input here: a `Response` value. `FetchAllContent` and `GetAllPosts` take that response;
 * the other operations take the post list their own `getAllPosts()` call
 * yields, as the parameter `posts`, and the lemmas that need it to be the
 * fetched list say `posts == GetAllPosts(response)`.
 */
module Api {
  import opened Wrappers
  import opened JsArray

  // ---------------------------------------------------------------------
  // Data model
  // ---------------------------------------------------------------------

  /**
   * A content item as the endpoint delivers it. A field the JSON object may
   * omit is an `Option`; `publishDate` is the instant `new Date(...)` parses,
   * as a timestamp.
   */
  datatype RawItem = RawItem(
    slug: string,
    status: string,
    publishDate: int,
    title: Option<string>,
    featuredImageUrl: Option<string>,
    categories: Option<seq<string>>,
    tags: Option<seq<string>>,
    author: Option<string>,
    metaDescription: Option<string>,
    content: Option<string>)

  /** What `fetch(API_BASE_URL)` and `response.json()` come to. */
  datatype Response =
    | Rejected                  // the request failed, or the body is not a JSON array
    | NotOk(status: int)        // `response.ok` is false
    | Json(items: seq<RawItem>)

  datatype Frontmatter = Frontmatter(
    title: Option<string>,
    date: int,
    image: Option<string>,
    categories: seq<string>,
    tags: seq<string>,
    author: Option<string>,
    description: Option<string>,
    featured: bool,
    draft: bool)

  /** A post as the pages consume it. */
  datatype Post = Post(slug: string, frontmatter: Frontmatter, content: string)

  /** One entry of `getAllCategories`: a normalised name and its occurrence count. */
  datatype CategoryCount = CategoryCount(name: string, posts: nat)

  const PublishedStatus: string := "published"

  // ---------------------------------------------------------------------
  // fetchAllContent: keep the published items, newest first
  // ---------------------------------------------------------------------

  predicate IsPublished(item: RawItem) {
    item.status == PublishedStatus
  }

  /** Publish dates never increase along `s`. */
  ghost predicate NewestFirst(s: seq<RawItem>) {
    forall i, j :: 0 <= i < j < |s| ==> s[i].publishDate >= s[j].publishDate
  }

  /**
   * Inserts `x` in front of the first element of `s` that is not newer than
   * `x`, so `x` stays ahead of the items of its own date (stability).
   */
  function InsertByDate(x: RawItem, s: seq<RawItem>): (r: seq<RawItem>)
    requires NewestFirst(s)
    ensures |r| == |s| + 1
    ensures forall i :: 0 <= i < |r| ==> r[i] == x || r[i] in s
    ensures r[0] == x || (s != [] && r[0] == s[0])
    ensures NewestFirst(r)
    ensures multiset(r) == multiset(s) + multiset{x}
  {
    if s == [] || s[0].publishDate <= x.publishDate then
      NewestFirstCons(x, s);
      [x] + s
    else
      var rest := InsertByDate(x, s[1..]);
      assert s == [s[0]] + s[1..];
      NewestFirstCons(s[0], rest);
      [s[0]] + rest
  }

  /** Putting an item no older than the head in front keeps a list newest-first. */
  lemma NewestFirstCons(h: RawItem, t: seq<RawItem>)
    requires NewestFirst(t) && (t == [] || t[0].publishDate <= h.publishDate)
    ensures NewestFirst([h] + t)
  {
    var r := [h] + t;
    forall i, j | 0 <= i < j < |r| ensures r[i].publishDate >= r[j].publishDate {
      if i == 0 {
        assert r[j] == t[j - 1];
      }
    }
  }

  /**
   * `Array.prototype.sort` with the comparator `b.publishDate - a.publishDate`:
   * a stable sort, newest first.
   */
  function SortNewestFirst(s: seq<RawItem>): (r: seq<RawItem>)
    ensures NewestFirst(r)
    ensures multiset(r) == multiset(s)
  {
    if s == [] then []
    else
      assert s == [s[0]] + s[1..];
      InsertByDate(s[0], SortNewestFirst(s[1..]))
  }

  /**
   * `fetchAllContent`: the published items of a successful response, newest
   * first; any failure yields the empty list instead of an error.
   */
  function FetchAllContent(response: Response): (r: seq<RawItem>)
    ensures !response.Json? ==> r == []
    ensures response.Json? ==> multiset(r) == multiset(Filter(response.items, IsPublished))
    ensures forall i :: 0 <= i < |r| ==> IsPublished(r[i])
    ensures NewestFirst(r)
  {
    match response
    case Json(items) =>
      var published := Filter(items, IsPublished);
      var sorted := SortNewestFirst(published);
      assert forall i :: 0 <= i < |sorted| ==> sorted[i] in multiset(published);
      sorted
    case _ => []
  }

  /** Selects the items published at instant `d`. */
  function PublishedAt(d: int): RawItem -> bool {
    (item: RawItem) => item.publishDate == d
  }

  lemma {:induction false} InsertByDateStable(x: RawItem, s: seq<RawItem>, d: int)
    requires NewestFirst(s)
    ensures Filter(InsertByDate(x, s), PublishedAt(d))
         == (if x.publishDate == d then [x] else []) + Filter(s, PublishedAt(d))
  {
    var r := InsertByDate(x, s);
    if s == [] || s[0].publishDate <= x.publishDate {
      assert r[0] == x && r[1..] == s;
    } else {
      var keep, rest := PublishedAt(d), InsertByDate(x, s[1..]);
      InsertByDateStable(x, s[1..], d);
      assert r[0] == s[0] && r[1..] == rest;
      if s[0].publishDate == d {
        // `x` is older than `s[0]`, so it is not published at `d`.
        assert Filter(r, keep) == [s[0]] + Filter(rest, keep);
        assert Filter(rest, keep) == Filter(s[1..], keep);
      } else {
        assert Filter(r, keep) == Filter(rest, keep);
      }
    }
  }

  /** The sort is stable: the items of any one date keep their input order. */
  lemma {:induction false} SortNewestFirstStable(s: seq<RawItem>, d: int)
    ensures Filter(SortNewestFirst(s), PublishedAt(d)) == Filter(s, PublishedAt(d))
  {
    if s != [] {
      SortNewestFirstStable(s[1..], d);
      InsertByDateStable(s[0], SortNewestFirst(s[1..]), d);
    }
  }

  /**
   * Together with the ensures of `FetchAllContent` (a newest-first
   * permutation of the published items) this pins the result down: published
   * items of equal date keep their order in the response.
   */
  lemma FetchAllContentStable(response: Response, d: int)
    requires response.Json?
    ensures Filter(FetchAllContent(response), PublishedAt(d))
         == Filter(Filter(response.items, IsPublished), PublishedAt(d))
  {
    SortNewestFirstStable(Filter(response.items, IsPublished), d);
  }

  // ---------------------------------------------------------------------
  // getAllPosts: map each item to a post, filling defaults
  // ---------------------------------------------------------------------

  /** The post `getAllPosts` builds from one item. */
  function ToPost(item: RawItem): (p: Post)
    ensures p.slug == item.slug && p.frontmatter.date == item.publishDate
    ensures item.categories.None? ==> p.frontmatter.categories == []
    ensures item.categories.Some? ==> p.frontmatter.categories == item.categories.value
    ensures item.tags.None? ==> p.frontmatter.tags == []
    ensures item.tags.Some? ==> p.frontmatter.tags == item.tags.value
    ensures item.content.None? ==> p.content == ""
    ensures item.content.Some? ==> p.content == item.content.value
    ensures !p.frontmatter.featured && !p.frontmatter.draft
    ensures p.frontmatter.title == item.title && p.frontmatter.image == item.featuredImageUrl
    ensures p.frontmatter.author == item.author && p.frontmatter.description == item.metaDescription
  {
    Post(
      item.slug,
      Frontmatter(
        item.title,
        item.publishDate,
        item.featuredImageUrl,
        match item.categories case Some(cs) => cs case None => [],
        match item.tags case Some(ts) => ts case None => [],
        item.author,
        item.metaDescription,
        false,
        false),
      match item.content case Some(c) => c case None => "")
  }

  /** `getAllPosts`: one post per fetched item, in the same order. */
  function GetAllPosts(response: Response): (posts: seq<Post>)
    ensures |posts| == |FetchAllContent(response)|
    ensures forall i :: 0 <= i < |posts| ==> posts[i].slug == FetchAllContent(response)[i].slug
    ensures forall i :: 0 <= i < |posts| ==> posts[i] == ToPost(FetchAllContent(response)[i])
  {
    var content := FetchAllContent(response);
    seq(|content|, i requires 0 <= i < |content| => ToPost(content[i]))
  }

  /** Dates never increase along the post list, and a failed fetch gives no posts. */
  lemma GetAllPostsNewestFirst(response: Response)
    ensures !response.Json? ==> GetAllPosts(response) == []
    ensures forall i, j :: 0 <= i < j < |GetAllPosts(response)| ==>
      GetAllPosts(response)[i].frontmatter.date >= GetAllPosts(response)[j].frontmatter.date
  {
    var content := FetchAllContent(response);
    var posts := GetAllPosts(response);
    forall i, j | 0 <= i < j < |posts|
      ensures posts[i].frontmatter.date >= posts[j].frontmatter.date
    {
      assert posts[i].frontmatter.date == content[i].publishDate;
      assert posts[j].frontmatter.date == content[j].publishDate;
    }
  }

  /**
   * A post exists for a slug exactly when the response is a success that
   * holds a published item with that slug: unpublished items never become
   * posts and no published item is dropped.
   */
  lemma GetAllPostsSlugs(response: Response, slug: string)
    ensures (exists i :: 0 <= i < |GetAllPosts(response)| && GetAllPosts(response)[i].slug == slug)
        <==> response.Json? && exists item :: item in response.items && IsPublished(item) && item.slug == slug
  {
    var content := FetchAllContent(response);
    var posts := GetAllPosts(response);
    if response.Json? {
      var published := Filter(response.items, IsPublished);
      if i :| 0 <= i < |posts| && posts[i].slug == slug {
        assert content[i] in multiset(published);
        assert content[i] in response.items;
      }
      if item :| item in response.items && IsPublished(item) && item.slug == slug {
        var k :| 0 <= k < |response.items| && response.items[k] == item;
        assert item in published;
        assert item in multiset(content);
        var i :| 0 <= i < |content| && content[i] == item;
        assert posts[i].slug == slug;
      }
    }
  }

  // ---------------------------------------------------------------------
  // getPostBySlug
  // ---------------------------------------------------------------------

  /** `getPostBySlug`: the first post with the slug, or `None` (null) when there is none. */
  function GetPostBySlug(posts: seq<Post>, slug: string): (r: Option<Post>)
    ensures r.None? <==> forall i :: 0 <= i < |posts| ==> posts[i].slug != slug
    ensures r.Some? ==> exists i :: (0 <= i < |posts| && posts[i] == r.value && r.value.slug == slug
      && forall j :: 0 <= j < i ==> posts[j].slug != slug)
  {
    if posts == [] then None
    else if posts[0].slug == slug then Some(posts[0])
    else
      var r := GetPostBySlug(posts[1..], slug);
      assert r.Some? ==> exists i :: (1 <= i < |posts| && posts[i] == r.value && r.value.slug == slug
        && forall j :: 0 <= j < i ==> posts[j].slug != slug);
      r
  }

  // ---------------------------------------------------------------------
  // Category normalisation: toLowerCase() then replace(/\s+/g, '-')
  // ---------------------------------------------------------------------

  /** The characters the JavaScript class `\s` matches. */
  predicate IsWhitespace(c: char) {
    || c == ' ' || c == '\t' || c == '\n' || c == '\r'
    || c == '\U{000B}' || c == '\U{000C}' || c == '\U{00A0}' || c == '\U{1680}'
    || ('\U{2000}' <= c <= '\U{200A}')
    || c == '\U{2028}' || c == '\U{2029}' || c == '\U{202F}' || c == '\U{205F}'
    || c == '\U{3000}' || c == '\U{FEFF}'
  }

  predicate IsUpper(c: char) {
    'A' <= c <= 'Z'
  }

  function ToLowerChar(c: char): (r: char)
    ensures !IsUpper(r)
    ensures IsWhitespace(r) <==> IsWhitespace(c)
    ensures !IsUpper(c) ==> r == c
    ensures IsUpper(c) ==> 'a' <= r <= 'z' && r as int - 'a' as int == c as int - 'A' as int
  {
    if IsUpper(c) then (c as int + 32) as char else c
  }

  /** `s.toLowerCase()` over ASCII letters. */
  function ToLowerCase(s: string): (r: string)
    ensures |r| == |s|
    ensures forall i :: 0 <= i < |r| ==> !IsUpper(r[i])
    ensures forall i :: 0 <= i < |r| ==> (IsWhitespace(r[i]) <==> IsWhitespace(s[i]))
    ensures forall i :: 0 <= i < |s| ==> r[i] == ToLowerChar(s[i])
  {
    seq(|s|, i requires 0 <= i < |s| => ToLowerChar(s[i]))
  }

  /** Drops the whitespace run at the head of `s`. */
  function SkipWhitespace(s: string): (r: string)
    ensures |r| <= |s| && r == s[|s| - |r|..]
    ensures r == [] || !IsWhitespace(r[0])
    ensures forall i :: 0 <= i < |s| - |r| ==> IsWhitespace(s[i])
  {
    if s != [] && IsWhitespace(s[0]) then SkipWhitespace(s[1..]) else s
  }

  ghost predicate NoWhitespace(s: string) {
    forall i :: 0 <= i < |s| ==> !IsWhitespace(s[i])
  }

  ghost predicate NoUpper(s: string) {
    forall i :: 0 <= i < |s| ==> !IsUpper(s[i])
  }

  /** `s.replace(/\s+/g, '-')`: each maximal whitespace run becomes one hyphen. */
  function ReplaceWhitespaceRuns(s: string): (r: string)
    ensures |r| <= |s|
    ensures NoWhitespace(r)
    ensures NoUpper(s) ==> NoUpper(r)
    decreases |s|
  {
    if s == [] then []
    else if IsWhitespace(s[0]) then
      var rest := SkipWhitespace(s[1..]);
      NoUpperDrop(s, 1);
      NoUpperDrop(s[1..], |s| - 1 - |rest|);
      var tail := ReplaceWhitespaceRuns(rest);
      CleanCons('-', tail);
      "-" + tail
    else
      NoUpperDrop(s, 1);
      var tail := ReplaceWhitespaceRuns(s[1..]);
      CleanCons(s[0], tail);
      [s[0]] + tail
  }

  /** Every character of the replacement is a hyphen or a character of the input. */
  lemma {:induction false} ReplaceWhitespaceRunsChars(s: string)
    ensures forall i :: 0 <= i < |ReplaceWhitespaceRuns(s)| ==>
      ReplaceWhitespaceRuns(s)[i] == '-' || ReplaceWhitespaceRuns(s)[i] in s
    decreases |s|
  {
    if s == [] {
    } else if IsWhitespace(s[0]) {
      var rest := SkipWhitespace(s[1..]);
      ReplaceWhitespaceRunsChars(rest);
      SuffixMembers(s[1..], |s| - 1 - |rest|);
      SuffixMembers(s, 1);
    } else {
      ReplaceWhitespaceRunsChars(s[1..]);
      SuffixMembers(s, 1);
    }
  }

  lemma SuffixMembers(s: string, k: nat)
    requires k <= |s|
    ensures forall c :: c in s[k..] ==> c in s
  {
  }

  lemma CleanCons(c: char, t: string)
    ensures !IsWhitespace(c) && NoWhitespace(t) ==> NoWhitespace([c] + t)
    ensures !IsUpper(c) && NoUpper(t) ==> NoUpper([c] + t)
  {
  }

  lemma NoUpperDrop(s: string, k: nat)
    requires k <= |s|
    ensures NoUpper(s) ==> NoUpper(s[k..])
  {
  }

  /** The category slug of a category name (lib/api.js:71, :96). */
  function NormalizeCategory(name: string): (r: string)
    ensures |r| <= |name|
    ensures forall i :: 0 <= i < |r| ==> !IsWhitespace(r[i]) && !IsUpper(r[i])
  {
    var lower := ToLowerCase(name);
    assert NoUpper(lower);
    ReplaceWhitespaceRuns(lower)
  }

  lemma {:induction false} ReplaceWhitespaceRunsIdentity(s: string)
    requires NoWhitespace(s)
    ensures ReplaceWhitespaceRuns(s) == s
  {
    if s != [] {
      ReplaceWhitespaceRunsIdentity(s[1..]);
    }
  }

  predicate AllWhitespace(s: string) {
    forall i :: 0 <= i < |s| ==> IsWhitespace(s[i])
  }

  /** Skipping a leading run stops inside `x` unless `x` is whitespace throughout. */
  lemma {:induction false} SkipWhitespaceConcat(x: string, y: string)
    ensures AllWhitespace(x) ==> SkipWhitespace(x + y) == SkipWhitespace(y)
    ensures !AllWhitespace(x) ==> SkipWhitespace(x + y) == SkipWhitespace(x) + y
  {
    if x == [] {
      assert x + y == y;
    } else if IsWhitespace(x[0]) {
      var xy := x + y;
      assert xy[0] == x[0] && xy[1..] == x[1..] + y;
      assert SkipWhitespace(xy) == SkipWhitespace(x[1..] + y);
      assert SkipWhitespace(x) == SkipWhitespace(x[1..]);
      SkipWhitespaceConcat(x[1..], y);
      assert AllWhitespace(x) <==> AllWhitespace(x[1..]);
    } else {
      assert (x + y)[0] == x[0];
    }
  }

  /** A non-empty whitespace run becomes a single hyphen. */
  lemma ReplaceWhitespaceRunsOfRun(w: string)
    requires w != [] && AllWhitespace(w)
    ensures ReplaceWhitespaceRuns(w) == "-"
  {
  }

  /**
   * The replacement works piece by piece: it distributes over a split that
   * does not cut a whitespace run in two.
   */
  lemma {:induction false} ReplaceWhitespaceRunsConcat(a: string, b: string)
    requires !(a != [] && IsWhitespace(a[|a| - 1]) && b != [] && IsWhitespace(b[0]))
    ensures ReplaceWhitespaceRuns(a + b) == ReplaceWhitespaceRuns(a) + ReplaceWhitespaceRuns(b)
    decreases |a|, 1
  {
    if a == [] {
      assert a + b == b;
    } else if !IsWhitespace(a[0]) {
      ConcatAfterChar(a, b);
    } else if AllWhitespace(a[1..]) {
      assert AllWhitespace(a);
      ConcatAfterWholeRun(a, b);
    } else {
      assert a == [a[0]] + a[1..];
      assert a[1..][|a[1..]| - 1] == a[|a| - 1];
      ConcatAfterRun(a[0], a[1..], b);
    }
  }

  /** `ReplaceWhitespaceRunsConcat` when `a` is one whitespace run. */
  lemma ConcatAfterWholeRun(a: string, b: string)
    requires a != [] && AllWhitespace(a)
    requires b == [] || !IsWhitespace(b[0])
    ensures ReplaceWhitespaceRuns(a + b) == ReplaceWhitespaceRuns(a) + ReplaceWhitespaceRuns(b)
  {
    var ab := a + b;
    assert ab[0] == a[0] && ab[1..] == a[1..] + b;
    SkipWhitespaceConcat(a[1..], b);
    ReplaceWhitespaceRunsOfRun(a);
  }

  /**
   * `ReplaceWhitespaceRunsConcat` for `[w] + t` when the whitespace run that
   * `w` starts ends inside `t`.
   */
  lemma {:induction false} ConcatAfterRun(w: char, t: string, b: string)
    requires IsWhitespace(w) && !AllWhitespace(t)
    requires !(IsWhitespace(t[|t| - 1]) && b != [] && IsWhitespace(b[0]))
    ensures ReplaceWhitespaceRuns([w] + t + b) == ReplaceWhitespaceRuns([w] + t) + ReplaceWhitespaceRuns(b)
    decreases |t| + 1, 0
  {
    var rest := SkipWhitespace(t);
    RunThenText(w, t, b);
    SkipWhitespaceLast(t);
    ReplaceWhitespaceRunsConcat(rest, b);
    ConsAssoc('-', ReplaceWhitespaceRuns(rest), ReplaceWhitespaceRuns(b));
  }

  /** Unfolds the replacement over a run that ends inside `t`, with or without `b` after it. */
  lemma RunThenText(w: char, t: string, b: string)
    requires IsWhitespace(w) && !AllWhitespace(t)
    ensures ReplaceWhitespaceRuns([w] + t) == "-" + ReplaceWhitespaceRuns(SkipWhitespace(t))
    ensures ReplaceWhitespaceRuns([w] + t + b) == "-" + ReplaceWhitespaceRuns(SkipWhitespace(t) + b)
  {
    var a, ab := [w] + t, [w] + t + b;
    assert a[0] == w && a[1..] == t;
    assert ab[0] == w && ab[1..] == t + b;
    SkipWhitespaceConcat(t, b);
  }

  /** Skipping the leading run of a string that is not all whitespace keeps its last character. */
  lemma {:induction false} SkipWhitespaceLast(s: string)
    requires !AllWhitespace(s)
    ensures SkipWhitespace(s) != [] && SkipWhitespace(s)[|SkipWhitespace(s)| - 1] == s[|s| - 1]
  {
    if IsWhitespace(s[0]) {
      SkipWhitespaceLast(s[1..]);
    }
  }

  /** `ReplaceWhitespaceRunsConcat` when `a` starts with any other character. */
  lemma {:induction false} ConcatAfterChar(a: string, b: string)
    requires a != [] && !IsWhitespace(a[0])
    requires !(IsWhitespace(a[|a| - 1]) && b != [] && IsWhitespace(b[0]))
    ensures ReplaceWhitespaceRuns(a + b) == ReplaceWhitespaceRuns(a) + ReplaceWhitespaceRuns(b)
    decreases |a|, 0
  {
    var ab := a + b;
    assert ab[0] == a[0] && ab[1..] == a[1..] + b;
    if a[1..] != [] {
      assert a[1..][|a[1..]| - 1] == a[|a| - 1];
    }
    ReplaceWhitespaceRunsConcat(a[1..], b);
    var x, y := ReplaceWhitespaceRuns(a[1..]), ReplaceWhitespaceRuns(b);
    calc {
      ReplaceWhitespaceRuns(ab);
      [a[0]] + ReplaceWhitespaceRuns(a[1..] + b);
      [a[0]] + (x + y);
      { ConsAssoc(a[0], x, y); }
      ([a[0]] + x) + y;
    }
  }

  lemma ConsAssoc<T>(c: T, x: seq<T>, y: seq<T>)
    ensures [c] + (x + y) == ([c] + x) + y
  {
  }

  /** Normalising a slug again changes nothing. */
  lemma NormalizeCategoryIdempotent(name: string)
    ensures NormalizeCategory(NormalizeCategory(name)) == NormalizeCategory(name)
  {
    var once := NormalizeCategory(name);
    assert ToLowerCase(once) == once;
    ReplaceWhitespaceRunsIdentity(once);
  }

  // ---------------------------------------------------------------------
  // getAllCategories: count normalised names in a Map, first-seen order
  // ---------------------------------------------------------------------

  /** The slugs of a post's category names, in order. */
  function NormalizeAll(categories: seq<string>): (r: seq<string>)
    ensures |r| == |categories|
    ensures forall i :: 0 <= i < |r| ==> r[i] == NormalizeCategory(categories[i])
  {
    seq(|categories|, i requires 0 <= i < |categories| => NormalizeCategory(categories[i]))
  }

  /** Every category occurrence of `posts`, normalised, in the order the nested `forEach` visits them. */
  function Occurrences(posts: seq<Post>): seq<string> {
    if posts == [] then []
    else Occurrences(posts[..|posts| - 1]) + NormalizeAll(posts[|posts| - 1].frontmatter.categories)
  }

  /** The number of times `x` occurs in `s`. */
  function Count(s: seq<string>, x: string): nat {
    if s == [] then 0
    else Count(s[..|s| - 1], x) + (if s[|s| - 1] == x then 1 else 0)
  }

  /** The distinct elements of `s`, in order of first appearance. */
  function Distinct(s: seq<string>): (d: seq<string>)
    ensures forall x :: x in d <==> x in s
    ensures forall i, j :: 0 <= i < j < |d| ==> d[i] != d[j]
  {
    if s == [] then []
    else
      var d := Distinct(s[..|s| - 1]);
      assert forall x :: x in s <==> x in s[..|s| - 1] || x == s[|s| - 1] by {
        assert s == s[..|s| - 1] + [s[|s| - 1]];
      }
      if s[|s| - 1] in d then d else d + [s[|s| - 1]]
  }

  /** An entry per name of `names`, counting its occurrences in `occurrences`. */
  function CountsOf(names: seq<string>, occurrences: seq<string>): (r: seq<CategoryCount>)
    ensures |r| == |names|
    ensures forall i :: 0 <= i < |r| ==> r[i] == CategoryCount(names[i], Count(occurrences, names[i]))
  {
    seq(|names|, i requires 0 <= i < |names| => CategoryCount(names[i], Count(occurrences, names[i])))
  }

  /** What `getAllCategories` returns, stated without the Map. */
  function CategoryIndex(posts: seq<Post>): seq<CategoryCount> {
    var occurrences := Occurrences(posts);
    CountsOf(Distinct(occurrences), occurrences)
  }

  /**
   * The JavaScript Map `getAllCategories` fills, as a dictionary `counts` and
   * its keys in insertion order, holds the tally of the names in `seen`.
   */
  ghost predicate TalliesOf(counts: map<string, nat>, keys: seq<string>, seen: seq<string>) {
    && keys == Distinct(seen)
    && (forall k :: k in counts <==> k in seen)
    && (forall k :: k in counts ==> counts[k] == Count(seen, k))
  }

  /** One `categoryMap.set(name, ...)` step (lib/api.js:72-76) keeps the map a tally. */
  lemma TallyStep(counts: map<string, nat>, keys: seq<string>, seen: seq<string>, name: string)
    requires TalliesOf(counts, keys, seen)
    ensures name in counts ==> TalliesOf(counts[name := counts[name] + 1], keys, seen + [name])
    ensures name !in counts ==> TalliesOf(counts[name := 1], keys + [name], seen + [name])
  {
    var seen' := seen + [name];
    assert seen'[..|seen|] == seen;
    assert Distinct(seen') == if name in Distinct(seen) then keys else keys + [name];
    assert forall k :: k in seen' <==> k in seen || k == name;
    forall k ensures Count(seen', k) == Count(seen, k) + (if k == name then 1 else 0) {
      CountSnoc(seen, name, k);
    }
    if name !in counts {
      CountAbsent(seen, name);
    }
  }

  lemma CountSnoc(s: seq<string>, x: string, k: string)
    ensures Count(s + [x], k) == Count(s, k) + (if k == x then 1 else 0)
  {
    assert (s + [x])[..|s|] == s;
  }

  lemma OccurrencesStep(posts: seq<Post>, i: nat, j: nat)
    requires i < |posts| && j < |posts[i].frontmatter.categories|
    ensures Occurrences(posts[..i]) + NormalizeAll(posts[i].frontmatter.categories[..j + 1])
         == Occurrences(posts[..i]) + NormalizeAll(posts[i].frontmatter.categories[..j])
            + [NormalizeCategory(posts[i].frontmatter.categories[j])]
  {
  }

  lemma OccurrencesNext(posts: seq<Post>, i: nat)
    requires i < |posts|
    ensures Occurrences(posts[..i + 1])
         == Occurrences(posts[..i]) + NormalizeAll(posts[i].frontmatter.categories[..|posts[i].frontmatter.categories|])
  {
    assert posts[..i + 1][..i] == posts[..i];
    assert posts[i].frontmatter.categories[..|posts[i].frontmatter.categories|] == posts[i].frontmatter.categories;
  }

  /**
   * `getAllCategories`: walks the posts and their categories, bumping the
   * count of each normalised name in an insertion-ordered map, then lists
   * the map's entries.
   */
  method GetAllCategories(posts: seq<Post>) returns (categories: seq<CategoryCount>)
    ensures categories == CategoryIndex(posts)
  {
    // A JavaScript Map: the counts, and the keys in insertion order.
    var counts: map<string, nat> := map[];
    var keys: seq<string> := [];
    ghost var seen: seq<string> := [];
    for i := 0 to |posts|
      invariant seen == Occurrences(posts[..i])
      invariant TalliesOf(counts, keys, seen)
    {
      var names := posts[i].frontmatter.categories;
      for j := 0 to |names|
        invariant seen == Occurrences(posts[..i]) + NormalizeAll(names[..j])
        invariant TalliesOf(counts, keys, seen)
      {
        var name := NormalizeCategory(names[j]);
        TallyStep(counts, keys, seen, name);
        if name in counts {
          counts := counts[name := counts[name] + 1];
        } else {
          counts := counts[name := 1];
          keys := keys + [name];
        }
        OccurrencesStep(posts, i, j);
        seen := seen + [name];
      }
      OccurrencesNext(posts, i);
    }
    assert posts[..|posts|] == posts;
    categories := seq(|keys|, k requires 0 <= k < |keys| => CategoryCount(keys[k], counts[keys[k]]));
  }

  lemma {:induction false} CountPositive(s: seq<string>, x: string)
    requires x in s
    ensures Count(s, x) >= 1
  {
    if s[|s| - 1] != x {
      assert s == s[..|s| - 1] + [s[|s| - 1]];
      CountPositive(s[..|s| - 1], x);
    }
  }

  lemma {:induction false} CountAbsent(s: seq<string>, x: string)
    requires x !in s
    ensures Count(s, x) == 0
  {
    if s != [] {
      CountAbsent(s[..|s| - 1], x);
    }
  }

  lemma {:induction false} CountConcat(a: seq<string>, b: seq<string>, x: string)
    ensures Count(a + b, x) == Count(a, x) + Count(b, x)
  {
    if b == [] {
      assert a + b == a;
    } else {
      assert (a + b)[..|a + b| - 1] == a + b[..|b| - 1];
      CountConcat(a, b[..|b| - 1], x);
    }
  }

  /** Sum of the counts of a list of entries. */
  function TotalPosts(entries: seq<CategoryCount>): nat {
    if entries == [] then 0
    else TotalPosts(entries[..|entries| - 1]) + entries[|entries| - 1].posts
  }

  /** The number of category occurrences across `posts`. */
  function CategoryOccurrenceCount(posts: seq<Post>): nat {
    if posts == [] then 0
    else CategoryOccurrenceCount(posts[..|posts| - 1]) + |posts[|posts| - 1].frontmatter.categories|
  }

  lemma {:induction false} OccurrencesLength(posts: seq<Post>)
    ensures |Occurrences(posts)| == CategoryOccurrenceCount(posts)
  {
    if posts != [] {
      OccurrencesLength(posts[..|posts| - 1]);
    }
  }

  /** Adding one occurrence of `k` raises the total over distinct `names` by one when `k` is among them. */
  lemma {:induction false} TotalPostsShift(names: seq<string>, occurrences: seq<string>, k: string)
    requires forall i, j :: 0 <= i < j < |names| ==> names[i] != names[j]
    ensures TotalPosts(CountsOf(names, occurrences + [k]))
         == TotalPosts(CountsOf(names, occurrences)) + (if k in names then 1 else 0)
  {
    if names != [] {
      var n := |names|;
      var init := names[..n - 1];
      assert CountsOf(names, occurrences + [k])[..n - 1] == CountsOf(init, occurrences + [k]);
      assert CountsOf(names, occurrences)[..n - 1] == CountsOf(init, occurrences);
      assert (occurrences + [k])[..|occurrences|] == occurrences;
      TotalPostsShift(init, occurrences, k);
      assert names == init + [names[n - 1]];
      assert names[n - 1] == k ==> k !in init;
    }
  }

  lemma {:induction false} TotalPostsOfDistinct(occurrences: seq<string>)
    ensures TotalPosts(CountsOf(Distinct(occurrences), occurrences)) == |occurrences|
  {
    if occurrences != [] {
      var n := |occurrences|;
      var init := occurrences[..n - 1];
      var k := occurrences[n - 1];
      assert occurrences == init + [k];
      var d := Distinct(init);
      TotalPostsOfDistinct(init);
      TotalPostsShift(d, init, k);
      if k !in d {
        var d' := d + [k];
        assert CountsOf(d', occurrences)[..|d|] == CountsOf(d, occurrences);
        CountAbsent(init, k);
      }
    }
  }

  /**
   * `getAllCategories` lists each normalised name exactly once, every count
   * is the name's number of occurrences and at least one, and a name is
   * listed exactly when some post carries a category with that slug.
   */
  lemma CategoryIndexEntries(posts: seq<Post>)
    ensures forall i, j :: 0 <= i < j < |CategoryIndex(posts)| ==>
      CategoryIndex(posts)[i].name != CategoryIndex(posts)[j].name
    ensures forall i :: 0 <= i < |CategoryIndex(posts)| ==>
      CategoryIndex(posts)[i].posts == Count(Occurrences(posts), CategoryIndex(posts)[i].name)
      && CategoryIndex(posts)[i].posts >= 1
    ensures forall name :: ((exists i :: 0 <= i < |CategoryIndex(posts)| && CategoryIndex(posts)[i].name == name)
      <==> name in Occurrences(posts))
  {
    var occurrences := Occurrences(posts);
    var d := Distinct(occurrences);
    assert CategoryIndex(posts) == CountsOf(d, occurrences);
    forall i | 0 <= i < |d| ensures Count(occurrences, d[i]) >= 1 {
      CountPositive(occurrences, d[i]);
    }
    forall name | name in occurrences
      ensures exists i :: 0 <= i < |d| && CategoryIndex(posts)[i].name == name
    {
      var i :| 0 <= i < |d| && d[i] == name;
      assert CategoryIndex(posts)[i].name == name;
    }
  }

  /** The counts add up to the number of category occurrences across all posts. */
  lemma CategoryIndexTotal(posts: seq<Post>)
    ensures TotalPosts(CategoryIndex(posts)) == CategoryOccurrenceCount(posts)
  {
    TotalPostsOfDistinct(Occurrences(posts));
    OccurrencesLength(posts);
  }

  /** The position of the first occurrence of `x` in `s`. */
  function FirstIndex(s: seq<string>, x: string): (k: nat)
    requires x in s
    ensures k < |s| && s[k] == x
    ensures forall m :: 0 <= m < k ==> s[m] != x
  {
    if s[0] == x then 0 else 1 + FirstIndex(s[1..], x)
  }

  /** `Distinct` lists names in the order of their first occurrence. */
  lemma {:induction false} DistinctFirstSeen(s: seq<string>)
    ensures forall i, j :: 0 <= i < j < |Distinct(s)| ==>
      FirstIndex(s, Distinct(s)[i]) < FirstIndex(s, Distinct(s)[j])
  {
    if s != [] {
      var n := |s|;
      var init := s[..n - 1];
      assert s == init + [s[n - 1]];
      DistinctFirstSeen(init);
      var d := Distinct(init);
      forall x | x in init ensures FirstIndex(s, x) == FirstIndex(init, x) {
        var b := FirstIndex(init, x);
        assert s[b] == x;
      }
      var all := Distinct(s);
      assert all == if s[n - 1] in d then d else d + [s[n - 1]];
      forall i, j | 0 <= i < j < |all| ensures FirstIndex(s, all[i]) < FirstIndex(s, all[j]) {
        assert all[i] == d[i] && all[i] in init;
        if j == |d| {
          assert FirstIndex(s, all[j]) == n - 1;
        } else {
          assert all[j] == d[j] && all[j] in init;
        }
      }
    }
  }

  /** The entries of `getAllCategories` come in first-seen order. */
  lemma CategoryIndexFirstSeen(posts: seq<Post>)
    ensures forall i, j :: 0 <= i < j < |CategoryIndex(posts)| ==>
      FirstIndex(Occurrences(posts), CategoryIndex(posts)[i].name)
        < FirstIndex(Occurrences(posts), CategoryIndex(posts)[j].name)
  {
    DistinctFirstSeen(Occurrences(posts));
  }

  // ---------------------------------------------------------------------
  // getPostsByCategory
  // ---------------------------------------------------------------------

  /** Some category name of the post normalises to `slug`. */
  predicate HasCategory(post: Post, slug: string) {
    exists c :: c in post.frontmatter.categories && NormalizeCategory(c) == slug
  }

  function InCategory(slug: string): Post -> bool {
    (post: Post) => HasCategory(post, slug)
  }

  /** `getPostsByCategory`: the posts filed under the slug, in their original order. */
  function GetPostsByCategory(posts: seq<Post>, slug: string): (r: seq<Post>)
    ensures |r| <= |posts|
    ensures forall i :: 0 <= i < |r| ==> r[i] in posts && HasCategory(r[i], slug)
    ensures forall i :: 0 <= i < |posts| && HasCategory(posts[i], slug) ==> posts[i] in r
  {
    Filter(posts, InCategory(slug))
  }

  /** A post's category slugs are exactly the normalisations of its category names. */
  lemma NormalizeAllMembers(post: Post, slug: string)
    ensures slug in NormalizeAll(post.frontmatter.categories) <==> HasCategory(post, slug)
  {
    var names := post.frontmatter.categories;
    if slug in NormalizeAll(names) {
      var k :| 0 <= k < |names| && NormalizeAll(names)[k] == slug;
      assert names[k] in names;
    }
    if HasCategory(post, slug) {
      var c :| c in names && NormalizeCategory(c) == slug;
      var k :| 0 <= k < |names| && names[k] == c;
      assert NormalizeAll(names)[k] == slug;
    }
  }

  lemma {:induction false} OccurrencesMembers(posts: seq<Post>, slug: string)
    ensures slug in Occurrences(posts) <==> exists i :: 0 <= i < |posts| && HasCategory(posts[i], slug)
  {
    if posts != [] {
      var n := |posts|;
      var init, last := posts[..n - 1], posts[n - 1];
      OccurrencesMembers(init, slug);
      NormalizeAllMembers(last, slug);
      assert Occurrences(posts) == Occurrences(init) + NormalizeAll(last.frontmatter.categories);
      if exists i :: 0 <= i < n && HasCategory(posts[i], slug) {
        var i :| 0 <= i < n && HasCategory(posts[i], slug);
        if i < n - 1 {
          assert init[i] == posts[i];
        }
      }
      if exists i :: 0 <= i < n - 1 && HasCategory(init[i], slug) {
        var i :| 0 <= i < n - 1 && HasCategory(init[i], slug);
        assert posts[i] == init[i];
      }
    }
  }

  lemma {:induction false} PostsByCategoryBound(posts: seq<Post>, slug: string)
    ensures |GetPostsByCategory(posts, slug)| <= Count(Occurrences(posts), slug)
  {
    if posts != [] {
      var n := |posts|;
      var init, last := posts[..n - 1], posts[n - 1];
      assert posts == init + [last];
      FilterConcat(init, [last], InCategory(slug));
      PostsByCategoryBound(init, slug);
      CountConcat(Occurrences(init), NormalizeAll(last.frontmatter.categories), slug);
      if HasCategory(last, slug) {
        var c :| c in last.frontmatter.categories && NormalizeCategory(c) == slug;
        var k :| 0 <= k < |last.frontmatter.categories| && last.frontmatter.categories[k] == c;
        CountPositive(NormalizeAll(last.frontmatter.categories), slug);
      }
    }
  }

  /**
   * The category list and the category pages agree: a slug is listed by
   * `getAllCategories` exactly when its page has posts, and the page never
   * has more posts than the listed count.
   */
  lemma CategoryPagesAgree(posts: seq<Post>, slug: string)
    ensures (exists i :: 0 <= i < |CategoryIndex(posts)| && CategoryIndex(posts)[i].name == slug)
      <==> GetPostsByCategory(posts, slug) != []
    ensures forall i :: 0 <= i < |CategoryIndex(posts)| && CategoryIndex(posts)[i].name == slug ==>
      |GetPostsByCategory(posts, slug)| <= CategoryIndex(posts)[i].posts
  {
    CategoryIndexEntries(posts);
    OccurrencesMembers(posts, slug);
    PostsByCategoryBound(posts, slug);
    var r := GetPostsByCategory(posts, slug);
    if r != [] {
      assert r[0] in posts;
    }
  }

  // ---------------------------------------------------------------------
  // getAllPostSlugs
  // ---------------------------------------------------------------------

  /** `getAllPostSlugs`: the slug of every post, in order. */
  function GetAllPostSlugs(posts: seq<Post>): (r: seq<string>)
    ensures |r| == |posts|
    ensures forall i :: 0 <= i < |r| ==> r[i] == posts[i].slug
  {
    seq(|posts|, i requires 0 <= i < |posts| => posts[i].slug)
  }

  /** Every listed slug resolves to a post with that slug, and only listed slugs do. */
  lemma SlugsResolve(posts: seq<Post>, slug: string)
    ensures slug in GetAllPostSlugs(posts) <==> GetPostBySlug(posts, slug).Some?
    ensures GetPostBySlug(posts, slug).Some? ==> GetPostBySlug(posts, slug).value.slug == slug
  {
    var slugs := GetAllPostSlugs(posts);
    if slug in slugs {
      var i :| 0 <= i < |slugs| && slugs[i] == slug;
      assert posts[i].slug == slug;
    }
  }

  // ---------------------------------------------------------------------
  // getRelatedPosts
  // ---------------------------------------------------------------------

  /** `post` carries a category string that `current` also carries, compared exactly. */
  predicate SharesCategory(post: Post, current: Post) {
    exists c :: c in post.frontmatter.categories && c in current.frontmatter.categories
  }

  predicate IsRelated(current: Post, post: Post) {
    post.slug != current.slug && SharesCategory(post, current)
  }

  function RelatedTo(current: Post): Post -> bool {
    (post: Post) => IsRelated(current, post)
  }

  /**
   * `getRelatedPosts`: the first `limit` posts, other than `current`, that
   * share a category with it, in list order (`limit` as `slice(0, limit)`
   * reads it).
   */
  function GetRelatedPosts(posts: seq<Post>, current: Post, limit: int): (r: seq<Post>)
    ensures r <= Filter(posts, RelatedTo(current))
    ensures |r| == SliceEnd(|Filter(posts, RelatedTo(current))|, limit)
    ensures limit >= 0 ==> |r| <= limit
    ensures forall i :: 0 <= i < |r| ==>
      r[i] in posts && r[i].slug != current.slug && SharesCategory(r[i], current)
    ensures limit >= 0 && |r| < limit ==>
      forall i :: 0 <= i < |posts| && IsRelated(current, posts[i]) ==> posts[i] in r
  {
    Prefix(Filter(posts, RelatedTo(current)), limit)
  }

  // ---------------------------------------------------------------------
  // getFeaturedPosts
  // ---------------------------------------------------------------------

  /** A copy of the post with `frontmatter.featured` set. */
  function MarkFeatured(post: Post): Post {
    post.(frontmatter := post.frontmatter.(featured := true))
  }

  /**
   * `getFeaturedPosts`: copies of the first `limit` posts, each marked
   * featured and otherwise equal to its source post.
   */
  function GetFeaturedPosts(posts: seq<Post>, limit: int): (r: seq<Post>)
    ensures |r| == SliceEnd(|posts|, limit)
    ensures limit >= 0 ==> |r| == if limit < |posts| then limit else |posts|
    ensures forall i :: 0 <= i < |r| ==> r[i].frontmatter.featured
    ensures forall i :: 0 <= i < |r| ==>
      r[i].(frontmatter := r[i].frontmatter.(featured := posts[i].frontmatter.featured)) == posts[i]
  {
    var top := Prefix(posts, limit);
    seq(|top|, i requires 0 <= i < |top| => MarkFeatured(top[i]))
  }

  /** Over the fetched list, the featured posts are the newest ones. */
  lemma FeaturedAreNewest(response: Response, limit: int)
    ensures forall i, j :: 0 <= i < |GetFeaturedPosts(GetAllPosts(response), limit)| <= j < |GetAllPosts(response)| ==>
      GetFeaturedPosts(GetAllPosts(response), limit)[i].frontmatter.date >= GetAllPosts(response)[j].frontmatter.date
  {
    GetAllPostsNewestFirst(response);
    var posts := GetAllPosts(response);
    var r := GetFeaturedPosts(posts, limit);
    forall i, j | 0 <= i < |r| <= j < |posts|
      ensures r[i].frontmatter.date >= posts[j].frontmatter.date
    {
      assert r[i].frontmatter.date == posts[i].frontmatter.date;
    }
  }
}
