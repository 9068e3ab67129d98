/**
 * The category links of a post page (layouts/PostSingle.js:78, :147) use
 * the normalisation of lib/api.js:71, so they land on the category pages
 * that `getAllCategories` lists.
 */
module PostSingle {
  import opened Api

  const CategoriesPath: string := "/categories/"

  /** The `href` of the link to a category of the post. */
  function CategoryHref(category: string): (href: string)
    ensures CategoriesPath <= href
  {
    CategoriesPath + NormalizeCategory(category)
  }

  /** The category segment of a link built by `CategoryHref`. */
  function HrefSlug(href: string): string
    requires CategoriesPath <= href
  {
    href[|CategoriesPath|..]
  }

  /**
   * A link to a category of a listed post names a category that
   * `getAllCategories` lists, and the page for it shows that post.
   */
  lemma CategoryLinksResolve(posts: seq<Post>, p: nat, category: string)
    requires p < |posts| && category in posts[p].frontmatter.categories
    ensures exists i :: 0 <= i < |CategoryIndex(posts)| && CategoryIndex(posts)[i].name == HrefSlug(CategoryHref(category))
    ensures posts[p] in GetPostsByCategory(posts, HrefSlug(CategoryHref(category)))
  {
    var slug := NormalizeCategory(category);
    assert HrefSlug(CategoryHref(category)) == slug;
    assert HasCategory(posts[p], slug);
    CategoryPagesAgree(posts, slug);
  }
}
