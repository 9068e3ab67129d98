/**
 * The slug listing of `getSinglePage` (lib/contentParser.js:32-48): the
 * names in a content folder become `{ slug }` records. The directory listing
 * `fs.readdirSync(folderPath)` is an input, `files`.
 */
module ContentParser {
  import opened Wrappers
  import opened JsArray

  /** The record `{ slug: fileName }` the listing is made of. */
  datatype SlugParam = SlugParam(slug: string)

  const IndexName: string := "_index"

  predicate EndsWith(s: string, suffix: string) {
    |suffix| <= |s| && s[|s| - |suffix|..] == suffix
  }

  /** `file.endsWith(".md") || file.endsWith(".mdx")` */
  predicate IsMarkdownFile(file: string) {
    EndsWith(file, ".md") || EndsWith(file, ".mdx")
  }

  /** `file.replace(/\.mdx?$/, "")`: drops a trailing `.md` or `.mdx`. */
  function StripExtension(file: string): (name: string)
    ensures EndsWith(file, ".mdx") ==> name + ".mdx" == file
    ensures EndsWith(file, ".md") ==> name + ".md" == file
    ensures !IsMarkdownFile(file) ==> name == file
  {
    if EndsWith(file, ".mdx") then
      assert file[|file| - 1] == 'x';
      file[..|file| - 4]
    else if EndsWith(file, ".md") then file[..|file| - 3]
    else file
  }

  /** The `map` step: `null` for the folder's `_index` file, otherwise its slug record. */
  function ToSlugParam(file: string): Option<SlugParam> {
    var name := StripExtension(file);
    if name == IndexName then None else Some(SlugParam(name))
  }

  /** The `map` step over the whole list. */
  function ToSlugParams(files: seq<string>): (r: seq<Option<SlugParam>>)
    ensures |r| == |files|
    ensures forall i :: 0 <= i < |r| ==> r[i] == ToSlugParam(files[i])
  {
    seq(|files|, i requires 0 <= i < |files| => ToSlugParam(files[i]))
  }

  /** `filter(Boolean)`: keeps the records, drops the nulls. */
  function Present(entries: seq<Option<SlugParam>>): (r: seq<SlugParam>)
    ensures |r| <= |entries|
    ensures forall i :: 0 <= i < |r| ==> Some(r[i]) in entries
    ensures forall i :: 0 <= i < |entries| && entries[i].Some? ==> entries[i].value in r
  {
    if entries == [] then []
    else
      var rest := Present(entries[1..]);
      assert forall e :: e in entries[1..] ==> e in entries;
      match entries[0]
      case Some(p) => [p] + rest
      case None => rest
  }

  /** `getSinglePage`: the slugs of the Markdown files of a folder listing, in listing order. */
  function GetSinglePage(files: seq<string>): (slugs: seq<SlugParam>)
    ensures |slugs| <= |files|
  {
    Present(ToSlugParams(Filter(files, IsMarkdownFile)))
  }

  /**
   * Every slug comes from a Markdown file of the listing: the slug plus the
   * extension it lost is that file's name, and the slug is never `_index`.
   */
  lemma GetSinglePageSound(files: seq<string>)
    ensures forall i :: 0 <= i < |GetSinglePage(files)| ==>
      var slug := GetSinglePage(files)[i].slug;
      slug != IndexName && (slug + ".md" in files || slug + ".mdx" in files)
  {
    var markdown := Filter(files, IsMarkdownFile);
    var mapped := ToSlugParams(markdown);
    var slugs := GetSinglePage(files);
    forall i | 0 <= i < |slugs|
      ensures slugs[i].slug != IndexName && (slugs[i].slug + ".md" in files || slugs[i].slug + ".mdx" in files)
    {
      var k :| 0 <= k < |mapped| && mapped[k] == Some(slugs[i]);
      var file := markdown[k];
      assert file in files && IsMarkdownFile(file);
      SlugParamOfFile(file, slugs[i]);
    }
  }

  lemma SlugParamOfFile(file: string, p: SlugParam)
    requires IsMarkdownFile(file) && ToSlugParam(file) == Some(p)
    ensures p.slug != IndexName && (p.slug + ".md" == file || p.slug + ".mdx" == file)
  {
  }

  /** Every Markdown file whose stripped name is not `_index` yields its slug. */
  lemma GetSinglePageComplete(files: seq<string>)
    ensures forall i :: 0 <= i < |files| && IsMarkdownFile(files[i]) && StripExtension(files[i]) != IndexName ==>
      SlugParam(StripExtension(files[i])) in GetSinglePage(files)
  {
    var markdown := Filter(files, IsMarkdownFile);
    var mapped := ToSlugParams(markdown);
    forall i | 0 <= i < |files| && IsMarkdownFile(files[i]) && StripExtension(files[i]) != IndexName
      ensures SlugParam(StripExtension(files[i])) in GetSinglePage(files)
    {
      var file := files[i];
      assert file in markdown;
      var k :| 0 <= k < |markdown| && markdown[k] == file;
      PresentKeeps(mapped, k, SlugParam(StripExtension(file)));
    }
  }

  lemma PresentKeeps(entries: seq<Option<SlugParam>>, k: nat, p: SlugParam)
    requires k < |entries| && entries[k] == Some(p)
    ensures p in Present(entries)
  {
  }

  /** `_index.md` and `_index.mdx` never produce an entry. */
  lemma IndexFileSkipped(files: seq<string>)
    ensures SlugParam(IndexName) !in GetSinglePage(files)
  {
    GetSinglePageSound(files);
  }

  /** The listing is processed file by file, so order is kept: listing `a + b` gives `a`'s slugs then `b`'s. */
  lemma {:induction false} GetSinglePageConcat(a: seq<string>, b: seq<string>)
    ensures GetSinglePage(a + b) == GetSinglePage(a) + GetSinglePage(b)
  {
    FilterConcat(a, b, IsMarkdownFile);
    var ma, mb := Filter(a, IsMarkdownFile), Filter(b, IsMarkdownFile);
    ToSlugParamsConcat(ma, mb);
    PresentConcat(ToSlugParams(ma), ToSlugParams(mb));
  }

  lemma ToSlugParamsConcat(a: seq<string>, b: seq<string>)
    ensures ToSlugParams(a + b) == ToSlugParams(a) + ToSlugParams(b)
  {
    var l, r := ToSlugParams(a + b), ToSlugParams(a) + ToSlugParams(b);
    assert |l| == |r|;
    forall i | 0 <= i < |l| ensures l[i] == r[i] {
      if i < |a| {
        assert (a + b)[i] == a[i];
      } else {
        assert (a + b)[i] == b[i - |a|];
      }
    }
  }

  lemma {:induction false} PresentConcat(a: seq<Option<SlugParam>>, b: seq<Option<SlugParam>>)
    ensures Present(a + b) == Present(a) + Present(b)
  {
    if a == [] {
      assert a + b == b;
    } else {
      assert (a + b)[1..] == a[1..] + b;
      PresentConcat(a[1..], b);
    }
  }
}
