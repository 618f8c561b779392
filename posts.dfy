/** The `mdFiles.forEach` loop of build.js: every markdown file is read, its front
    matter parsed and its body rendered, and a post is pushed with a title, a
    description, tags, a category, a summary and a slug unique among the posts.
    Reading a file and rendering markdown are given as functions that may fail;
    a failure skips the file. */
module Posts {
  import opened Wrappers
  import opened Text
  import opened Collector
  import opened Frontmatter
  import opened Summary
  import opened Slugs

  datatype Post = Post(
    title: string,
    description: string,
    tags: seq<string>,
    category: string,
    summary: string,
    slug: string,
    raw: string,
    content: string)

  const Untitled: string := "Sin título"
  const SummaryLength: nat := 140
  const Ellipsis: string := "..."

  // ---------------------------------------------------------------------------
  // The file name

  function LastName(p: Path): string {
    if |p| > 0 then p[|p| - 1] else ""
  }

  /** `name.replace(/\.md$/i, '')`. */
  function DropMdSuffix(name: string): (r: string)
    ensures r != name <==> |name| >= 3 && LowerAscii(name[|name| - 3..]) == ".md"
    ensures r != name ==> r == name[..|name| - 3]
  {
    if |name| >= 3 && LowerAscii(name[|name| - 3..]) == ".md" then name[..|name| - 3] else name
  }

  predicate IsDashOrUnderscore(c: char) {
    c == '-' || c == '_'
  }

  /** The text that follows a leading run of `-` and `_`. */
  function SkipDashes(s: string): (r: string)
    ensures |r| <= |s| && r == s[|s| - |r|..]
    ensures forall k :: 0 <= k < |s| - |r| ==> IsDashOrUnderscore(s[k])
    ensures |r| > 0 ==> !IsDashOrUnderscore(r[0])
  {
    if |s| > 0 && IsDashOrUnderscore(s[0]) then SkipDashes(s[1..]) else s
  }

  /** A run of dashes followed by anything else is exactly what `SkipDashes` drops. */
  lemma {:induction false} SkipDashesOf(d: string, x: string)
    requires forall k :: 0 <= k < |d| ==> IsDashOrUnderscore(d[k])
    requires |x| > 0 ==> !IsDashOrUnderscore(x[0])
    ensures SkipDashes(d + x) == x
  {
    if |d| > 0 {
      assert (d + x)[0] == d[0];
      assert (d + x)[1..] == d[1..] + x;
      SkipDashesOf(d[1..], x);
    } else {
      assert d + x == x;
    }
  }

  /** What follows the dashes of `s` is what follows them in `s + y`, unless `s` is
      nothing but dashes. */
  lemma {:induction false} SkipDashesAppend(s: string, y: string)
    requires |SkipDashes(s)| > 0
    ensures SkipDashes(s + y) == SkipDashes(s) + y
  {
    ConsAppend(s, y);
    if IsDashOrUnderscore(s[0]) {
      SkipDashesAppend(s[1..], y);
    }
  }

  /** `s.replace(/[-_]+/g, ' ')`: each run of `-` and `_` becomes one space. */
  function DashesToSpace(s: string): (r: string)
    ensures forall i :: 0 <= i < |r| ==> !IsDashOrUnderscore(r[i])
    ensures (forall i :: 0 <= i < |s| ==> !IsDashOrUnderscore(s[i])) ==> r == s
    ensures |s| > 0 && (forall i :: 0 <= i < |s| ==> IsDashOrUnderscore(s[i])) ==> r == " "
    decreases |s|
  {
    if |s| == 0 then ""
    else if IsDashOrUnderscore(s[0]) then " " + DashesToSpace(SkipDashes(s[1..]))
    else [s[0]] + DashesToSpace(s[1..])
  }

  /** The replacement works run by run: text split where no run of dashes is cut
      in two is replaced piece by piece. */
  lemma {:induction false} DashesToSpaceAppend(a: string, b: string)
    requires a == "" || b == "" || !IsDashOrUnderscore(a[|a| - 1]) || !IsDashOrUnderscore(b[0])
    ensures DashesToSpace(a + b) == DashesToSpace(a) + DashesToSpace(b)
    decreases |a|
  {
    if a == "" {
      assert a + b == b;
    } else if b == "" {
      assert a + b == a;
    } else if !IsDashOrUnderscore(a[0]) {
      DashesToSpaceAppend(a[1..], b);
      DashesToSpaceKeep(a, b);
    } else {
      var r := SkipDashes(a[1..]);
      if |r| > 0 {
        SkipDashesAppend(a[1..], b);
        assert r[|r| - 1] == a[|a| - 1];
        DashesToSpaceAppend(r, b);
        DashesToSpaceRun(a, b);
      } else {
        DashesToSpaceLastRun(a, b);
      }
    }
  }

  /** One step of `DashesToSpaceAppend` at a character that is kept. */
  lemma DashesToSpaceKeep(a: string, b: string)
    requires |a| > 0 && !IsDashOrUnderscore(a[0])
    requires DashesToSpace(a[1..] + b) == DashesToSpace(a[1..]) + DashesToSpace(b)
    ensures DashesToSpace(a + b) == DashesToSpace(a) + DashesToSpace(b)
  {
    ConsAppend(a, b);
    PrefixCarries([a[0]], DashesToSpace(a[1..]), DashesToSpace(b), DashesToSpace(a[1..] + b));
  }

  /** One step of `DashesToSpaceAppend` at a run of dashes inside `a`. */
  lemma DashesToSpaceRun(a: string, b: string)
    requires |a| > 0 && IsDashOrUnderscore(a[0])
    requires SkipDashes(a[1..] + b) == SkipDashes(a[1..]) + b
    requires DashesToSpace(SkipDashes(a[1..]) + b) == DashesToSpace(SkipDashes(a[1..])) + DashesToSpace(b)
    ensures DashesToSpace(a + b) == DashesToSpace(a) + DashesToSpace(b)
  {
    var r := SkipDashes(a[1..]);
    ConsAppend(a, b);
    PrefixCarries(" ", DashesToSpace(r), DashesToSpace(b), DashesToSpace(r + b));
  }

  /** The step of `DashesToSpaceAppend` at a run of dashes that ends `a`. */
  lemma DashesToSpaceLastRun(a: string, b: string)
    requires |a| > 0 && IsDashOrUnderscore(a[0]) && SkipDashes(a[1..]) == ""
    requires |b| > 0 && !IsDashOrUnderscore(b[0])
    ensures DashesToSpace(a + b) == DashesToSpace(a) + DashesToSpace(b)
  {
    ConsAppend(a, b);
    SkipDashesOf(a[1..], b);
    assert DashesToSpace(a) == " " by {
      assert DashesToSpace(a) == " " + DashesToSpace("");
    }
  }

  /** `path.basename(filePath).replace(/\.md$/i, '').replace(/[-_]+/g, ' ').trim()`. */
  function FilenameTitle(p: Path): string {
    Trim(DashesToSpace(DropMdSuffix(LastName(p))))
  }

  /** `path.basename(path.dirname(rel))`, or `''` for a file at the top. */
  function FolderCategory(p: Path): string {
    if |p| >= 2 then p[|p| - 2] else ""
  }

  // ---------------------------------------------------------------------------
  // The slug base

  /** `\w`, `\s` and `-`: the characters `/[^\w\s-]/g` keeps. */
  predicate IsSlugChar(c: char) {
    ('a' <= c <= 'z') || ('A' <= c <= 'Z') || ('0' <= c <= '9') || c == '_' || c == '-' || IsWs(c)
  }

  /** `s.replace(/[^\w\s-]/g, '')`. */
  function KeepSlugChars(s: string): (r: string)
    ensures |r| <= |s|
    ensures forall i :: 0 <= i < |r| ==> IsSlugChar(r[i]) && r[i] in s
    ensures forall i :: 0 <= i < |s| && IsSlugChar(s[i]) ==> s[i] in r
    ensures (forall i :: 0 <= i < |s| ==> IsSlugChar(s[i])) ==> r == s
    ensures (forall i :: 0 <= i < |s| ==> !IsSlugChar(s[i])) ==> r == ""
  {
    if |s| == 0 then ""
    else if IsSlugChar(s[0]) then [s[0]] + KeepSlugChars(s[1..])
    else KeepSlugChars(s[1..])
  }

  /** The filter works character by character, so it distributes over concatenation. */
  lemma {:induction false} KeepSlugCharsAppend(a: string, b: string)
    ensures KeepSlugChars(a + b) == KeepSlugChars(a) + KeepSlugChars(b)
  {
    if |a| > 0 {
      assert (a + b)[0] == a[0] && (a + b)[1..] == a[1..] + b;
      KeepSlugCharsAppend(a[1..], b);
    } else {
      assert a + b == b;
    }
  }

  /** `s.replace(/\s+/g, '-')`: each run of whitespace becomes one `-`. */
  function WsToDash(s: string): (r: string)
    ensures forall i :: 0 <= i < |r| ==> !IsWs(r[i]) && (r[i] == '-' || r[i] in s)
    ensures (forall i :: 0 <= i < |s| ==> !IsWs(s[i])) ==> r == s
    ensures |s| > 0 && AllWs(s) ==> r == "-"
    decreases |s|
  {
    if |s| == 0 then ""
    else if IsWs(s[0]) then "-" + WsToDash(TrimStart(s))
    else [s[0]] + WsToDash(s[1..])
  }

  /** The replacement works run by run: text split where no run of whitespace is
      cut in two is replaced piece by piece. */
  lemma {:induction false} WsToDashAppend(a: string, b: string)
    requires a == "" || b == "" || !IsWs(a[|a| - 1]) || !IsWs(b[0])
    ensures WsToDash(a + b) == WsToDash(a) + WsToDash(b)
    decreases |a|
  {
    if a == "" {
      assert a + b == b;
    } else if b == "" {
      assert a + b == a;
    } else if !IsWs(a[0]) {
      WsToDashAppend(a[1..], b);
      WsToDashKeep(a, b);
    } else {
      var r := TrimStart(a);
      if |r| > 0 {
        TrimStartAppend(a, b);
        assert r[|r| - 1] == a[|a| - 1];
        WsToDashAppend(r, b);
        WsToDashRun(a, b);
      } else {
        WsToDashLastRun(a, b);
      }
    }
  }

  /** One step of `WsToDashAppend` at a character that is kept. */
  lemma WsToDashKeep(a: string, b: string)
    requires |a| > 0 && !IsWs(a[0])
    requires WsToDash(a[1..] + b) == WsToDash(a[1..]) + WsToDash(b)
    ensures WsToDash(a + b) == WsToDash(a) + WsToDash(b)
  {
    ConsAppend(a, b);
    PrefixCarries([a[0]], WsToDash(a[1..]), WsToDash(b), WsToDash(a[1..] + b));
  }

  /** One step of `WsToDashAppend` at a run of whitespace inside `a`. */
  lemma WsToDashRun(a: string, b: string)
    requires |a| > 0 && IsWs(a[0])
    requires TrimStart(a + b) == TrimStart(a) + b
    requires WsToDash(TrimStart(a) + b) == WsToDash(TrimStart(a)) + WsToDash(b)
    ensures WsToDash(a + b) == WsToDash(a) + WsToDash(b)
  {
    var r := TrimStart(a);
    assert (a + b)[0] == a[0];
    PrefixCarries("-", WsToDash(r), WsToDash(b), WsToDash(r + b));
  }

  /** The step of `WsToDashAppend` at a run of whitespace that ends `a`. */
  lemma WsToDashLastRun(a: string, b: string)
    requires |a| > 0 && TrimStart(a) == ""
    requires |b| > 0 && !IsWs(b[0])
    ensures WsToDash(a + b) == WsToDash(a) + WsToDash(b)
  {
    assert a[..|a|] == a;
    assert IsWs(a[0]) && (a + b)[0] == a[0];
    TrimStartOf(a, b);
  }

  /** `filenameTitle.toLowerCase().replace(/[^\w\s-]/g, '').replace(/\s+/g, '-')`. */
  function BaseSlug(filenameTitle: string): string {
    WsToDash(KeepSlugChars(LowerAscii(filenameTitle)))
  }

  // ---------------------------------------------------------------------------
  // The fields of a post

  /** `(meta[key] && String(meta[key]).trim())`, as a string that is empty when
      the expression is falsy. */
  function TrimmedField(meta: Meta, key: string): string {
    if key in meta.fields then Trim(meta.fields[key]) else ""
  }

  function Title(meta: Meta, p: Path): string {
    var t := TrimmedField(meta, "title");
    if t != "" then t
    else
      var f := FilenameTitle(p);
      if f != "" then f else Untitled
  }

  function Description(meta: Meta, body: string): string {
    var d := TrimmedField(meta, "description");
    if d != "" then d else SummaryOf(body)
  }

  /** `Array.isArray(meta.tags) ? meta.tags : ...`: the `tags` entry is always a
      list, so the other arm reduces to the empty list. */
  function Tags(meta: Meta): seq<string> {
    meta.tags.GetOr([])
  }

  /** `meta.category || meta.cat || ''`, trimmed, else the first tag trimmed, else
      the folder. `meta.cat` is never set, since `cat` is read as a category key. */
  function Category(meta: Meta, tags: seq<string>, p: Path): string {
    var fromMeta := Trim(meta.category.GetOr(""));
    if fromMeta != "" then fromMeta
    else
      var fromTag := if |tags| > 0 && tags[0] != "" then Trim(tags[0]) else "";
      if fromTag != "" then fromTag else FolderCategory(p)
  }

  function SummaryText(description: string, body: string): string {
    if description != "" then
      if |description| > SummaryLength then description[..SummaryLength] + Ellipsis else description
    else Take(SummaryOf(body), SummaryLength) + Ellipsis
  }

  function SlugBase(meta: Meta, p: Path, title: string): string {
    var fromMeta := TrimmedField(meta, "slug");
    if fromMeta != "" then fromMeta
    else
      var b := BaseSlug(FilenameTitle(p));
      if b != "" then b else WsToDash(LowerAscii(title))
  }

  /** The post of file `p` with text `raw`, rendered body `content` and slug `slug`. */
  function PostOf(p: Path, raw: string, content: string, slug: string): Post {
    var parsed := FrontmatterOf(raw);
    var title := Title(parsed.meta, p);
    var description := Description(parsed.meta, parsed.body);
    var tags := Tags(parsed.meta);
    Post(title, description, tags, Category(parsed.meta, tags, p),
      SummaryText(description, parsed.body), slug, raw, content)
  }

  /** The slug base of file `p` with text `raw`. */
  function SlugBaseOf(p: Path, raw: string): string {
    var parsed := FrontmatterOf(raw);
    SlugBase(parsed.meta, p, Title(parsed.meta, p))
  }

  // ---------------------------------------------------------------------------
  // The loop

  /** One iteration: skip the file when reading or rendering fails, else take the
      first free slug and push the post. */
  function Step(acc: (seq<Post>, set<string>), p: Path,
                read: Path -> Option<string>, render: string -> Option<string>): (seq<Post>, set<string>)
  {
    match read(p)
    case None => acc
    case Some(raw) =>
      match render(FrontmatterOf(raw).body)
      case None => acc
      case Some(html) =>
        var slug := UniqueSlug(SlugBaseOf(p, raw), acc.1);
        (acc.0 + [PostOf(p, raw, html, slug)], acc.1 + {slug})
  }

  /** The posts and the slug set after the files, from an empty slug set. */
  function Build(files: seq<Path>, read: Path -> Option<string>, render: string -> Option<string>): (seq<Post>, set<string>) {
    if |files| == 0 then ([], {})
    else Step(Build(files[..|files| - 1], read, render), files[|files| - 1], read, render)
  }

  /** The files that give a post: those that can be read and whose body renders. */
  predicate Succeeds(p: Path, read: Path -> Option<string>, render: string -> Option<string>) {
    read(p).Some? && render(FrontmatterOf(read(p).value).body).Some?
  }

  function Kept(files: seq<Path>, read: Path -> Option<string>, render: string -> Option<string>): seq<Path> {
    if |files| == 0 then []
    else
      var init := Kept(files[..|files| - 1], read, render);
      if Succeeds(files[|files| - 1], read, render) then init + [files[|files| - 1]] else init
  }

  /** `mdFiles.forEach(...)`: `blogPosts` and `existingSlugs` start empty, and each
      iteration that does not throw pushes one post and adds its slug. */
  method ProcessFiles(files: seq<Path>, read: Path -> Option<string>, render: string -> Option<string>)
    returns (blogPosts: seq<Post>, existingSlugs: SlugSet)
    ensures fresh(existingSlugs)
    ensures (blogPosts, existingSlugs.slugs) == Build(files, read, render)
  {
    existingSlugs := new SlugSet();
    blogPosts := [];
    for i := 0 to |files|
      invariant (blogPosts, existingSlugs.slugs) == Build(files[..i], read, render)
    {
      assert files[..i + 1][..i] == files[..i];
      var p := files[i];
      var markdownContent := read(p);
      if markdownContent.None? {
        continue;
      }
      var parsed := ParseFrontmatter(markdownContent.value);
      var contentHtml := render(parsed.body);
      if contentHtml.None? {
        continue;
      }
      var slug := MakeUniqueSlug(SlugBase(parsed.meta, p, Title(parsed.meta, p)), existingSlugs);
      blogPosts := blogPosts + [PostOf(p, markdownContent.value, contentHtml.value, slug)];
    }
    assert files[..|files|] == files;
  }

  // ---------------------------------------------------------------------------
  // Properties of the loop

  function SlugsOf(ps: seq<Post>): set<string> {
    set k | 0 <= k < |ps| :: ps[k].slug
  }

  predicate DistinctSlugs(ps: seq<Post>) {
    forall i, j :: 0 <= i < j < |ps| ==> ps[i].slug != ps[j].slug
  }

  /** The slugs of the posts are pairwise distinct and are exactly the slug set. */
  lemma {:induction false} BuildSlugs(files: seq<Path>, read: Path -> Option<string>, render: string -> Option<string>)
    ensures DistinctSlugs(Build(files, read, render).0)
    ensures SlugsOf(Build(files, read, render).0) == Build(files, read, render).1
  {
    if |files| > 0 {
      BuildSlugs(files[..|files| - 1], read, render);
      StepSlugs(Build(files[..|files| - 1], read, render), files[|files| - 1], read, render);
    }
  }

  /** One iteration keeps the slugs distinct and equal to the slug set. */
  lemma StepSlugs(acc: (seq<Post>, set<string>), p: Path, read: Path -> Option<string>, render: string -> Option<string>)
    requires DistinctSlugs(acc.0) && SlugsOf(acc.0) == acc.1
    ensures DistinctSlugs(Step(acc, p, read, render).0)
    ensures SlugsOf(Step(acc, p, read, render).0) == Step(acc, p, read, render).1
  {
    if Succeeds(p, read, render) {
      var raw := read(p).value;
      var slug := UniqueSlug(SlugBaseOf(p, raw), acc.1);
      UniqueSlugFresh(SlugBaseOf(p, raw), acc.1);
      PushFresh(acc.0, PostOf(p, raw, render(FrontmatterOf(raw).body).value, slug));
    }
  }

  lemma PushFresh(ps: seq<Post>, post: Post)
    requires DistinctSlugs(ps) && post.slug !in SlugsOf(ps)
    ensures DistinctSlugs(ps + [post])
    ensures SlugsOf(ps + [post]) == SlugsOf(ps) + {post.slug}
  {
    var qs := ps + [post];
    assert forall k :: 0 <= k < |ps| ==> qs[k] == ps[k];
    assert qs[|ps|] == post;
    forall i, j | 0 <= i < j < |qs| ensures qs[i].slug != qs[j].slug {
      if j == |ps| {
        assert qs[i].slug in SlugsOf(ps);
      }
    }
  }

  /** The post of a file that succeeds, with the given slug. */
  function PostOfFile(p: Path, read: Path -> Option<string>, render: string -> Option<string>, slug: string): Post {
    var raw := read(p).GetOr("");
    PostOf(p, raw, render(FrontmatterOf(raw).body).GetOr(""), slug)
  }

  /** `PostOfFile` for fixed `read` and `render`. */
  function PostMaker(read: Path -> Option<string>, render: string -> Option<string>): (Path, string) -> Post {
    (p: Path, slug: string) => PostOfFile(p, read, render, slug)
  }

  /** The posts `make` gives for the files `kept` and the slugs `slugs`, in order. */
  function PostsOf(kept: seq<Path>, slugs: seq<string>, make: (Path, string) -> Post): (r: seq<Post>)
    requires |kept| == |slugs|
    ensures |r| == |kept|
  {
    if |kept| == 0 then []
    else
      var n := |kept| - 1;
      PostsOf(kept[..n], slugs[..n], make) + [make(kept[n], slugs[n])]
  }

  /** The slugs of the posts, in order. */
  function SlugSeq(ps: seq<Post>): (r: seq<string>)
    ensures |r| == |ps|
  {
    if |ps| == 0 then [] else SlugSeq(ps[..|ps| - 1]) + [ps[|ps| - 1].slug]
  }

  /** The files that give a post all succeed. */
  lemma {:induction false} KeptSucceed(files: seq<Path>, read: Path -> Option<string>, render: string -> Option<string>)
    ensures forall k :: 0 <= k < |Kept(files, read, render)| ==> Succeeds(Kept(files, read, render)[k], read, render)
    ensures forall p :: p in Kept(files, read, render) ==> p in files
  {
    if |files| > 0 {
      var init := files[..|files| - 1];
      KeptSucceed(init, read, render);
      assert forall p :: p in init ==> p in files;
    }
  }

  /** The posts follow the files that succeed, in their order, each made from its
      own file's text and rendering (the text is kept verbatim in `raw`) with the
      slug the loop chose for it: the first free one for its base among the
      slugs of the posts before it. */
  lemma {:induction false} BuildFollowsFiles(files: seq<Path>, read: Path -> Option<string>, render: string -> Option<string>)
    ensures var ps := Build(files, read, render).0;
      |ps| == |Kept(files, read, render)| && ps == PostsOf(Kept(files, read, render), SlugSeq(ps), PostMaker(read, render))
    ensures var ps := Build(files, read, render).0;
      |ps| == |Kept(files, read, render)| && SlugsChosen(ps, Kept(files, read, render))
  {
    if |files| > 0 {
      var init := files[..|files| - 1];
      BuildFollowsFiles(init, read, render);
      BuildSlugs(init, read, render);
      StepFollows(Build(init, read, render), Kept(init, read, render), files[|files| - 1], read, render);
      StepChooses(Build(init, read, render), Kept(init, read, render), files[|files| - 1], read, render);
    }
  }

  /** One iteration appends the post of its file exactly when the file succeeds. */
  lemma StepFollows(acc: (seq<Post>, set<string>), kept: seq<Path>, p: Path,
                    read: Path -> Option<string>, render: string -> Option<string>)
    requires |acc.0| == |kept| && acc.0 == PostsOf(kept, SlugSeq(acc.0), PostMaker(read, render))
    ensures var ps, ks := Step(acc, p, read, render).0, if Succeeds(p, read, render) then kept + [p] else kept;
      |ps| == |ks| && ps == PostsOf(ks, SlugSeq(ps), PostMaker(read, render))
  {
    if Succeeds(p, read, render) {
      var raw := read(p).value;
      var slug := UniqueSlug(SlugBaseOf(p, raw), acc.1);
      var post := PostOf(p, raw, render(FrontmatterOf(raw).body).value, slug);
      assert Step(acc, p, read, render).0 == acc.0 + [post];
      SlugSeqSnoc(acc.0, post);
      MakerGives(p, read, render, slug);
      PostsOfSnoc(kept, SlugSeq(acc.0), PostMaker(read, render), p, slug);
    }
  }

  /** One iteration gives its post the first free slug for the file's base. */
  lemma StepChooses(acc: (seq<Post>, set<string>), kept: seq<Path>, p: Path,
                    read: Path -> Option<string>, render: string -> Option<string>)
    requires |acc.0| == |kept| && acc.1 == SlugsOf(acc.0) && SlugsChosen(acc.0, kept)
    ensures var ps, ks := Step(acc, p, read, render).0, if Succeeds(p, read, render) then kept + [p] else kept;
      |ps| == |ks| && SlugsChosen(ps, ks)
  {
    if Succeeds(p, read, render) {
      var raw := read(p).value;
      var slug := UniqueSlug(SlugBaseOf(p, raw), acc.1);
      var post := PostOf(p, raw, render(FrontmatterOf(raw).body).value, slug);
      assert Step(acc, p, read, render).0 == acc.0 + [post];
      ChosenSnoc(acc.0, kept, p, post);
    }
  }

  /** Every post has the first free slug for its base among the slugs of the
      posts before it. */
  predicate SlugsChosen(ps: seq<Post>, kept: seq<Path>)
    requires |ps| == |kept|
  {
    forall k :: 0 <= k < |ps| ==> ps[k].slug == UniqueSlug(SlugBaseOf(kept[k], ps[k].raw), SlugsOf(ps[..k]))
  }

  /** Appending a post whose slug is the first free one keeps the slugs chosen. */
  lemma ChosenSnoc(ps: seq<Post>, kept: seq<Path>, p: Path, post: Post)
    requires |ps| == |kept| && SlugsChosen(ps, kept)
    requires post.slug == UniqueSlug(SlugBaseOf(p, post.raw), SlugsOf(ps))
    ensures SlugsChosen(ps + [post], kept + [p])
  {
    var qs, ks := ps + [post], kept + [p];
    forall k | 0 <= k < |qs| ensures qs[k].slug == UniqueSlug(SlugBaseOf(ks[k], qs[k].raw), SlugsOf(qs[..k])) {
      if k < |ps| {
        assert qs[..k] == ps[..k];
        assert qs[k] == ps[k] && ks[k] == kept[k];
      } else {
        assert qs[..k] == ps;
      }
    }
  }

  /** The maker gives the post the loop builds for a file that succeeds. */
  lemma MakerGives(p: Path, read: Path -> Option<string>, render: string -> Option<string>, slug: string)
    requires Succeeds(p, read, render)
    ensures PostMaker(read, render)(p, slug) == PostOf(p, read(p).value, render(FrontmatterOf(read(p).value).body).value, slug)
  {}

  lemma SlugSeqSnoc(ps: seq<Post>, post: Post)
    ensures SlugSeq(ps + [post]) == SlugSeq(ps) + [post.slug]
  {
    assert (ps + [post])[..|ps|] == ps;
  }

  lemma PostsOfSnoc(kept: seq<Path>, slugs: seq<string>, make: (Path, string) -> Post, p: Path, slug: string)
    requires |kept| == |slugs|
    ensures PostsOf(kept + [p], slugs + [slug], make) == PostsOf(kept, slugs, make) + [make(p, slug)]
  {
    assert (kept + [p])[..|kept|] == kept;
    assert (slugs + [slug])[..|slugs|] == slugs;
  }

  /** Post `k` is made from kept file `k` with slug `k`. */
  lemma {:induction false} PostsOfAt(kept: seq<Path>, slugs: seq<string>, make: (Path, string) -> Post, k: nat)
    requires |kept| == |slugs| && k < |kept|
    ensures PostsOf(kept, slugs, make)[k] == make(kept[k], slugs[k])
    decreases |kept|
  {
    var n := |kept| - 1;
    if k < n {
      PostsOfAt(kept[..n], slugs[..n], make, k);
    }
  }

  /** The slug sequence lists the slugs of the posts. */
  lemma {:induction false} SlugSeqAt(ps: seq<Post>, k: nat)
    requires k < |ps|
    ensures SlugSeq(ps)[k] == ps[k].slug
    decreases |ps|
  {
    if k < |ps| - 1 {
      SlugSeqAt(ps[..|ps| - 1], k);
    }
  }

  /** Post `k` of the loop comes from the `k`-th file that succeeds, holds that
      file's text verbatim in `raw` and its rendered body in `content`. */
  lemma BuildPostAt(files: seq<Path>, read: Path -> Option<string>, render: string -> Option<string>, k: nat)
    requires k < |Build(files, read, render).0|
    ensures var ps, kept := Build(files, read, render).0, Kept(files, read, render);
      k < |kept| && Succeeds(kept[k], read, render) &&
      ps[k] == PostOfFile(kept[k], read, render, ps[k].slug) &&
      ps[k].raw == read(kept[k]).value &&
      ps[k].content == render(FrontmatterOf(read(kept[k]).value).body).value &&
      ps[k].slug == UniqueSlug(SlugBaseOf(kept[k], ps[k].raw), SlugsOf(ps[..k]))
  {
    var ps, kept := Build(files, read, render).0, Kept(files, read, render);
    BuildFollowsFiles(files, read, render);
    KeptSucceed(files, read, render);
    PostsOfAt(kept, SlugSeq(ps), PostMaker(read, render), k);
    SlugSeqAt(ps, k);
  }

  /** A file that cannot be read or rendered changes nothing: no post and no slug. */
  lemma SkippedFileChangesNothing(files: seq<Path>, p: Path, read: Path -> Option<string>, render: string -> Option<string>)
    requires !Succeeds(p, read, render)
    ensures Build(files + [p], read, render) == Build(files, read, render)
  {
    assert (files + [p])[..|files|] == files;
  }

  // ---------------------------------------------------------------------------
  // Properties of the fields

  /** The title is the trimmed front-matter title, else the file name made
      readable, else "Sin título"; it is never empty. */
  lemma TitleRules(meta: Meta, p: Path)
    ensures Title(meta, p) != ""
    ensures TrimmedField(meta, "title") != "" ==> Title(meta, p) == TrimmedField(meta, "title")
    ensures TrimmedField(meta, "title") == "" && FilenameTitle(p) != "" ==> Title(meta, p) == FilenameTitle(p)
    ensures TrimmedField(meta, "title") == "" && FilenameTitle(p) == "" ==> Title(meta, p) == Untitled
    ensures Trim(Title(meta, p)) == Title(meta, p)
  {
    if "title" in meta.fields {
      TrimIdempotent(meta.fields["title"]);
    }
    TrimIdempotent(DashesToSpace(DropMdSuffix(LastName(p))));
    TrimOfTrimmed(Untitled);
  }

  /** The description is the trimmed front-matter description, else the summary
      taken from the body. */
  lemma DescriptionRules(meta: Meta, body: string)
    ensures TrimmedField(meta, "description") != "" ==> Description(meta, body) == TrimmedField(meta, "description")
    ensures TrimmedField(meta, "description") == "" ==> Description(meta, body) == SummaryOf(body)
  {}

  /** The category is the trimmed front-matter category, else the trimmed first
      tag, else the name of the folder holding the file, else empty. */
  lemma CategoryRules(meta: Meta, tags: seq<string>, p: Path)
    ensures meta.category.Some? && Trim(meta.category.value) != "" ==>
      Category(meta, tags, p) == Trim(meta.category.value)
    ensures Trim(meta.category.GetOr("")) == "" && |tags| > 0 && Trim(tags[0]) != "" ==>
      Category(meta, tags, p) == Trim(tags[0])
    ensures Trim(meta.category.GetOr("")) == "" && (|tags| == 0 || Trim(tags[0]) == "") ==>
      Category(meta, tags, p) == FolderCategory(p)
    ensures |p| == 1 && Trim(meta.category.GetOr("")) == "" && |tags| == 0 ==> Category(meta, tags, p) == ""
  {
    if |tags| > 0 && tags[0] == "" {
      assert Trim(tags[0]) == "";
    }
  }

  /** The summary is at most 143 characters: the description itself when it has
      1 to 140 characters, its first 140 and "..." when longer, and the body's
      summary cut to 140 with "..." when the description is empty. */
  lemma SummaryRules(description: string, body: string)
    ensures |SummaryText(description, body)| <= SummaryLength + |Ellipsis|
    ensures 0 < |description| <= SummaryLength ==> SummaryText(description, body) == description
    ensures |description| > SummaryLength ==>
      SummaryText(description, body) == description[..SummaryLength] + Ellipsis
    ensures description == "" ==> SummaryText(description, body) == Take(SummaryOf(body), SummaryLength) + Ellipsis
  {}

  /** In a post, an empty description can only come from an empty body summary,
      so the summary is then "..." alone. */
  lemma EmptyDescriptionSummary(p: Path, raw: string, content: string, slug: string)
    requires PostOf(p, raw, content, slug).description == ""
    ensures PostOf(p, raw, content, slug).summary == Ellipsis
  {
    var parsed := FrontmatterOf(raw);
    assert SummaryOf(parsed.body) == "";
  }

  /** The tags of a post are the front-matter list, or none. */
  lemma TagsRules(meta: Meta)
    ensures meta.tags.Some? ==> Tags(meta) == meta.tags.value
    ensures meta.tags.None? ==> Tags(meta) == []
  {}

  /** The slug base is the front-matter slug as it is, only trimmed; else the slug
      made from the file name; else the lower-cased title with each whitespace run
      turned into `-`. It is never empty. */
  lemma SlugRules(meta: Meta, p: Path, title: string)
    requires title != "" && Trim(title) == title
    ensures TrimmedField(meta, "slug") != "" ==> SlugBase(meta, p, title) == TrimmedField(meta, "slug")
    ensures TrimmedField(meta, "slug") == "" && BaseSlug(FilenameTitle(p)) != "" ==>
      SlugBase(meta, p, title) == BaseSlug(FilenameTitle(p))
    ensures TrimmedField(meta, "slug") == "" && BaseSlug(FilenameTitle(p)) == "" ==>
      SlugBase(meta, p, title) == WsToDash(LowerAscii(title))
    ensures SlugBase(meta, p, title) != ""
  {
    var lower := LowerAscii(title);
    assert lower[0] == LowerChar(title[0]);
  }

  /** `toLowerCase`, the `[^\w\s-]` removal and the whitespace-to-dash step leave
      only lower-case ASCII letters, digits, `_` and `-`. */
  lemma BaseSlugChars(t: string)
    ensures forall i :: 0 <= i < |BaseSlug(t)| ==> IsSlugOutChar(BaseSlug(t)[i])
  {
    var lower := LowerAscii(t);
    var kept := KeepSlugChars(lower);
    forall i | 0 <= i < |kept| ensures IsSlugOutChar(kept[i]) || IsWs(kept[i]) {
      var j :| 0 <= j < |lower| && lower[j] == kept[i];
    }
  }

  predicate IsSlugOutChar(c: char) {
    ('a' <= c <= 'z') || ('0' <= c <= '9') || c == '_' || c == '-'
  }
}
