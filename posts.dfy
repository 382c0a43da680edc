/**
 * The blog-post loader: each Markdown file under the posts directory becomes
 * a `Post` when it opens with a `---`-fenced header of `key: value` lines;
 * the posts are listed newest first and looked up by slug.
 *
 * The files arrive as a sequence of (path, text) pairs in the order the
 * bundler lists them.  Dates are ranked through `dateKey`, which stands for
 * `new Date(date).getTime()`.
 */
module Posts {
  import opened Wrappers
  import opened Text
  import Dict
  import Sorting

  datatype Post = Post(slug: string, title: string, date: string, description: string, content: string)

  datatype PostFile = PostFile(path: string, content: string)

  // ------------------------------------------------------------------- slug

  /** The last `/`-separated segment of `s`. */
  function LastSegment(s: string): (seg: string)
    ensures '/' !in seg
  {
    var parts := Split(s, '/');
    parts[|parts| - 1]
  }

  /** A post's slug: the last segment of its path with the first `.md` in it
      removed. */
  function Slug(path: string): (slug: string)
    ensures '/' !in slug
  {
    RemoveFirst(LastSegment(path), ".md")
  }

  lemma {:induction false} SplitEndsWith(a: string, b: string, sep: char)
    requires sep !in b
    requires a == [] || a[|a| - 1] == sep
    ensures var parts := Split(a + b, sep); parts[|parts| - 1] == b
    decreases |a|
  {
    if a == [] {
      assert a + b == b;
      SplitAtFirst(b, sep);
    } else {
      var rest := a[1..] + b;
      assert (a + b)[0] == a[0] && (a + b)[1..] == rest;
      var tail := Split(rest, sep);
      if a[1..] == [] {
        assert rest == b;
        SplitAtFirst(b, sep);
      } else {
        SplitEndsWith(a[1..], b, sep);
        if |tail| == 1 {
          JoinSplit(rest, sep);
          assert false;
        }
      }
    }
  }

  /** Replacing `.md` in `<name>.md<rest>` cuts that extension, when `name`
      itself holds no `.md`. */
  lemma StripMarkdownExtension(name: string, rest: string)
    requires !Contains(name, ".md")
    ensures RemoveFirst(name + ".md" + rest, ".md") == name + rest
  {
    var file := name + ".md" + rest;
    assert file[|name|..|name| + 3] == ".md";
    assert OccursAt(file, ".md", |name|);
    assert IndexOf(name, ".md").None?;
    forall k: nat | k < |name| ensures !OccursAt(file, ".md", k) {
      if k + 3 <= |name| {
        assert file[k..k + 3] == name[k..k + 3];
        assert !OccursAt(name, ".md", k);
      } else if k + 1 == |name| {
        assert file[k..k + 3][1] == file[|name|] == '.';
      } else {
        assert file[k..k + 3][2] == file[|name|] == '.';
      }
    }
    assert file[..|name|] == name && file[|name| + 3..] == rest;
  }

  /** The slug of `<dir>/<file>` is `file` with its first `.md` removed. */
  lemma SlugOfFile(dir: string, file: string)
    requires '/' !in file
    ensures Slug(dir + "/" + file) == RemoveFirst(file, ".md")
  {
    assert dir + "/" + file == (dir + "/") + file;
    SplitEndsWith(dir + "/", file, '/');
  }

  /** The slug of `<dir>/<name>.md` is `name`. */
  lemma SlugOfPostPath(dir: string, name: string)
    requires '/' !in name && !Contains(name, ".md")
    ensures Slug(dir + "/" + name + ".md") == name
  {
    var file := name + ".md";
    assert '/' !in file;
    assert dir + "/" + name + ".md" == dir + "/" + file;
    SlugOfFile(dir, file);
    StripMarkdownExtension(name, "");
    assert name + ".md" + "" == file && name + "" == name;
  }

  /** Only the first `.md` goes: the slug of `<dir>/<name>.md.md` is
      `<name>.md`. */
  lemma SlugOfDoubledExtension(dir: string, name: string)
    requires '/' !in name && !Contains(name, ".md")
    ensures Slug(dir + "/" + name + ".md.md") == name + ".md"
  {
    var file := name + ".md" + ".md";
    assert '/' !in file;
    assert dir + "/" + name + ".md.md" == dir + "/" + file;
    SlugOfFile(dir, file);
    StripMarkdownExtension(name, ".md");
  }

  // ------------------------------------------------------------ frontmatter

  const Fence := "---\n"
  const Delimiter := "\n---\n"

  /** The frontmatter pattern: the text must open with the fence `---\n`; the
      header runs up to the first delimiter `\n---\n` after it (the lazy
      group), and the body is everything after that delimiter. */
  function SplitFrontmatter(content: string): (r: Option<(string, string)>)
    ensures r.Some? <==> StartsWith(content, Fence) && Contains(content[|Fence|..], Delimiter)
    ensures r.Some? ==> content == Fence + r.value.0 + Delimiter + r.value.1
    ensures r.Some? ==> forall k :: 0 <= k < |r.value.0| ==> !OccursAt(content[|Fence|..], Delimiter, k)
  {
    if !StartsWith(content, Fence) then None
    else
      var rest := content[|Fence|..];
      match IndexOf(rest, Delimiter)
      case None => None
      case Some(i) =>
        assert content == Fence + rest[..i] + rest[i..i + |Delimiter|] + rest[i + |Delimiter|..];
        Some((rest[..i], rest[i + |Delimiter|..]))
  }

  /** A header in which no delimiter can be found (not even one that runs
      into the closing fence) comes back out, and so does any body. */
  lemma FrontmatterRoundTrip(header: string, body: string)
    requires !Contains(header + "\n---", Delimiter)
    ensures SplitFrontmatter(Fence + header + Delimiter + body) == Some((header, body))
  {
    var content := Fence + header + Delimiter + body;
    var rest := content[|Fence|..];
    assert rest == header + Delimiter + body;
    assert OccursAt(rest, Delimiter, |header|);
    forall k | 0 <= k < |header| ensures !OccursAt(rest, Delimiter, k) {
      assert rest[..|header| + 4] == header + "\n---";
      assert rest[k..k + 5] == (header + "\n---")[k..k + 5];
      assert !OccursAt(header + "\n---", Delimiter, k);
    }
    assert IndexOf(rest, Delimiter) == Some(|header|);
    assert rest[..|header|] == header;
    assert rest[|header| + 5..] == body;
  }

  // --------------------------------------------------------------- metadata

  /** Removal of the quotes around a value: one `"` at the start and one at
      the end are dropped; a lone `"` is dropped once. */
  function StripQuotes(s: string): (r: string)
    ensures |s| - 2 <= |r| <= |s|
    ensures |s| > 0 && s[0] == '"' ==> |r| < |s|
    ensures |s| > 0 && s[0] == '"' ==> r == s[1..1 + |r|]
    ensures !(|s| > 0 && s[0] == '"') ==> r == s[..|r|]
  {
    var start := if |s| > 0 && s[0] == '"' then 1 else 0;
    var end := if |s| > start && s[|s| - 1] == '"' then |s| - 1 else |s|;
    s[start..end]
  }

  lemma StripQuotesOfQuoted(x: string)
    ensures StripQuotes("\"" + x + "\"") == x
  {
    assert ("\"" + x + "\"")[1..|x| + 1] == x;
  }

  lemma StripQuotesOfUnquoted(x: string)
    requires x == [] || (x[0] != '"' && x[|x| - 1] != '"')
    ensures StripQuotes(x) == x
  {
  }

  /** A quote only at the start is dropped; so is a lone `"`. */
  lemma StripQuotesOfLeading(x: string)
    requires x == [] || x[|x| - 1] != '"'
    ensures StripQuotes("\"" + x) == x
  {
    assert ("\"" + x)[1..] == x;
  }

  /** A quote only at the end is dropped; so is a lone `"`. */
  lemma StripQuotesOfTrailing(x: string)
    requires x == [] || x[0] != '"'
    ensures StripQuotes(x + "\"") == x
  {
    assert (x + "\"")[..|x|] == x;
  }

  /** What one header line writes: nothing when its first colon comes first
      (this includes the empty line); otherwise the trimmed text before the
      first colon, as key, and everything after it, trimmed and unquoted, as
      value.  A line without a colon writes `""`. */
  function MetadataEntry(line: string): (r: Option<(string, string)>)
    ensures r.None? <==> line == [] || line[0] == ':'
    ensures r.Some? ==> ':' !in r.value.0
  {
    var i := IndexOfChar(line, ':');
    if i == 0 then None
    else
      BeforeFirst(line, ':');
      TrimOmits(line[..i], ':');
      Some((Trim(line[..i]), StripQuotes(Trim(if i < |line| then line[i + 1..] else ""))))
  }

  /** The line parser's own computation agrees with `MetadataEntry`: the line
      is split at every colon; when the first piece is non-empty it is trimmed
      into the key, and the other pieces, joined back with colons, trimmed and
      unquoted, give the value.  The test of the value is always true, since
      the remaining pieces form an array. */
  lemma MetadataEntryMatchesSplit(line: string)
    ensures var fields := Split(line, ':');
      MetadataEntry(line)
        == if fields[0] == "" then None
           else Some((Trim(fields[0]), StripQuotes(Trim(Join(fields[1..], ':')))))
  {
    var i := IndexOfChar(line, ':');
    var fields := Split(line, ':');
    JoinAfterFirst(line, ':');
    assert fields[0] == line[..i];
    assert fields[0] == "" <==> i == 0;
    assert Join(fields[1..], ':') == if i < |line| then line[i + 1..] else "";
  }

  /** Colons after the first belong to the value. */
  lemma ColonsKeptInValue(key: string, value: string)
    requires key != "" && ':' !in key
    ensures MetadataEntry(key + ":" + value) == Some((Trim(key), StripQuotes(Trim(value))))
  {
    var line := key + ":" + value;
    FirstOccurrence(key, ':', value);
    assert IndexOfChar(line, ':') == |key|;
    assert line[..|key|] == key && line[|key| + 1..] == value;
  }

  /** A line without a colon sets its trimmed text to `""`; an empty line, or
      one whose key before the colon is empty, writes nothing. */
  lemma LinesWithoutKeyOrColon(line: string, value: string)
    requires ':' !in line
    ensures line != "" ==> MetadataEntry(line) == Some((Trim(line), ""))
    ensures MetadataEntry("") == None && MetadataEntry(":" + value) == None
  {
    assert IndexOfChar(line, ':') == |line| by {
      assert forall k :: 0 <= k < |line| ==> line[k] != ':';
    }
    assert line[..|line|] == line;
    assert StripQuotes(Trim("")) == "";
    assert IndexOfChar(":" + value, ':') == 0;
  }

  /** The `metadata` object built from the header's lines. */
  function MetadataOf(lines: seq<string>): map<string, string>
  {
    Dict.ApplyEach(MetadataEntry, lines)
  }

  /** Every entry of the metadata is what some header line gives, so no key
      holds a `:`. */
  function Metadata(header: string): (r: map<string, string>)
    ensures forall k :: k in r ==> ':' !in k
  {
    Dict.ApplyEachFrom(MetadataEntry, Split(header, '\n'));
    MetadataOf(Split(header, '\n'))
  }

  /** A key is in the metadata exactly when some header line writes it. */
  lemma MetadataDomain(lines: seq<string>, key: string)
    ensures key in MetadataOf(lines) <==> exists i :: 0 <= i < |lines| && Dict.Writes(MetadataEntry(lines[i]), key)
  {
    Dict.ApplyEachDomain(MetadataEntry, lines, key);
  }

  /** A later line with the same key overrides an earlier one. */
  lemma MetadataLastLineWins(lines: seq<string>, i: nat, key: string)
    requires i < |lines| && Dict.Writes(MetadataEntry(lines[i]), key)
    requires forall j :: i < j < |lines| ==> !Dict.Writes(MetadataEntry(lines[j]), key)
    ensures key in MetadataOf(lines) && MetadataOf(lines)[key] == MetadataEntry(lines[i]).value.1
  {
    Dict.ApplyEachLastWins(MetadataEntry, lines, i, key);
  }

  /** A header field, or the default when it is missing or empty. */
  function FieldOr(metadata: map<string, string>, key: string, default: string): (r: string)
    ensures key in metadata && metadata[key] != "" ==> r == metadata[key]
    ensures key !in metadata || metadata[key] == "" ==> r == default
  {
    if key in metadata && metadata[key] != "" then metadata[key] else default
  }

  // ------------------------------------------------------------------ posts

  /** The post one file yields, if its text has a header. */
  function ParsePost(file: PostFile): (r: Option<Post>)
    ensures r.Some? <==> SplitFrontmatter(file.content).Some?
    ensures r.Some? ==>
      var (header, body) := SplitFrontmatter(file.content).value;
      var metadata := Metadata(header);
      && r.value.slug == Slug(file.path)
      && r.value.content == body
      && r.value.title == FieldOr(metadata, "title", r.value.slug)
      && r.value.date == FieldOr(metadata, "date", "")
      && r.value.description == FieldOr(metadata, "description", "")
  {
    match SplitFrontmatter(file.content)
    case None => None
    case Some((header, body)) =>
      var metadata := Metadata(header);
      var slug := Slug(file.path);
      Some(Post(slug, FieldOr(metadata, "title", slug), FieldOr(metadata, "date", ""),
                FieldOr(metadata, "description", ""), body))
  }

  /** The results of `parse` on the items where it gives one, in order. */
  function Collected<T, U>(parse: T -> Option<U>, items: seq<T>): (r: seq<U>)
    ensures |r| <= |items|
  {
    if items == [] then []
    else
      Collected(parse, items[..|items| - 1])
        + (match parse(items[|items| - 1]) case Some(u) => [u] case None => [])
  }

  /** Collecting one more item appends its result, if it has one. */
  lemma CollectedStep<T, U>(parse: T -> Option<U>, items: seq<T>, n: nat)
    requires n < |items|
    ensures Collected(parse, items[..n + 1])
         == Collected(parse, items[..n]) + match parse(items[n]) case Some(u) => [u] case None => []
  {
    assert items[..n + 1][..n] == items[..n];
  }

  lemma {:induction false} CollectedMembers<T, U>(parse: T -> Option<U>, items: seq<T>, u: U)
    ensures u in Collected(parse, items) <==> exists x :: x in items && parse(x) == Some(u)
  {
    if items != [] {
      var init := items[..|items| - 1];
      var last := items[|items| - 1];
      CollectedMembers(parse, init, u);
      assert items == init + [last];
      if u in Collected(parse, init) {
        var x :| x in init && parse(x) == Some(u);
        assert x in items;
      }
      if parse(last) == Some(u) {
        assert last in items;
      }
    }
  }

  /** The posts of the files that have a header, in file order. */
  function ParsedPosts(files: seq<PostFile>): (posts: seq<Post>)
    ensures |posts| <= |files|
  {
    Collected(ParsePost, files)
  }

  /** The parsed posts are exactly the posts of the files that have a header. */
  lemma ParsedPostsMembers(files: seq<PostFile>, p: Post)
    ensures p in ParsedPosts(files) <==> exists f :: f in files && ParsePost(f) == Some(p)
  {
    CollectedMembers(ParsePost, files, p);
  }

  function ByDate(dateKey: string -> int): Post -> int
  {
    (p: Post) => dateKey(p.date)
  }

  /** The newest-first sort of the posts: descending by date key, and stable. */
  function SortByDate(posts: seq<Post>, dateKey: string -> int): (r: seq<Post>)
    ensures Sorting.SortedDesc(r, ByDate(dateKey))
    ensures multiset(r) == multiset(posts)
    ensures Sorting.SameOrderPerKey(r, posts, ByDate(dateKey))
  {
    Sorting.SortDescCorrect(posts, ByDate(dateKey));
    Sorting.SortDesc(posts, ByDate(dateKey))
  }

  /** The first post with the given slug, if any. */
  function FindBySlug(posts: seq<Post>, slug: string): (r: Option<Post>)
    ensures r.Some? ==> exists i :: (0 <= i < |posts| && posts[i] == r.value && r.value.slug == slug
                                     && forall j :: 0 <= j < i ==> posts[j].slug != slug)
    ensures r.None? ==> forall p :: p in posts ==> p.slug != slug
  {
    if posts == [] then None
    else if posts[0].slug == slug then Some(posts[0])
    else
      var r := FindBySlug(posts[1..], slug);
      assert r.Some? ==> exists i :: (1 <= i < |posts| && posts[i] == r.value
                                      && forall j :: 0 <= j < i ==> posts[j].slug != slug) by {
        if r.Some? {
          var i :| 0 <= i < |posts[1..]| && posts[1..][i] == r.value
            && forall j :: 0 <= j < i ==> posts[1..][j].slug != slug;
          assert posts[i + 1] == r.value;
          forall j | 0 <= j < i + 1 ensures posts[j].slug != slug {
            if j > 0 {
              assert posts[j] == posts[1..][j - 1];
            }
          }
        }
      }
      r
  }

  /** The `forEach` over the header lines, writing into `metadata`. */
  method ParseMetadata(header: string) returns (metadata: map<string, string>)
    ensures metadata == Metadata(header)
  {
    var lines := Split(header, '\n');
    metadata := map[];
    var i := 0;
    while i < |lines|
      invariant 0 <= i <= |lines|
      invariant metadata == MetadataOf(lines[..i])
    {
      metadata := AddMetadataLine(metadata, lines[i]);
      Dict.ApplyEachStep(MetadataEntry, lines, i);
      i := i + 1;
    }
    assert lines[..i] == lines;
  }

  /** The `forEach` callback: one header line's write into `metadata`. */
  method AddMetadataLine(metadata: map<string, string>, line: string) returns (next: map<string, string>)
    ensures next == Dict.Put(metadata, MetadataEntry(line))
  {
    var fields := Split(line, ':');
    var key := fields[0];
    var value := fields[1..];
    next := metadata;
    MetadataEntryMatchesSplit(line);
    if key != "" {
      next := metadata[Trim(key) := StripQuotes(Trim(Join(value, ':')))];
    }
  }

  /** `getPosts`: parses every file with a header, then sorts newest first. */
  method GetPosts(files: seq<PostFile>, dateKey: string -> int) returns (posts: seq<Post>)
    ensures posts == SortByDate(ParsedPosts(files), dateKey)
  {
    var parsed: seq<Post> := [];
    var n := 0;
    while n < |files|
      invariant 0 <= n <= |files|
      invariant parsed == ParsedPosts(files[..n])
    {
      var post := ReadPost(files[n]);
      if post.Some? {
        parsed := parsed + [post.value];
      }
      CollectedStep(ParsePost, files, n);
      n := n + 1;
    }
    assert files[..n] == files;
    posts := SortByDate(parsed, dateKey);
  }

  /** The body of the loop of `getPosts`: one file's slug, header match,
      metadata and defaults. */
  method ReadPost(file: PostFile) returns (post: Option<Post>)
    ensures post == ParsePost(file)
  {
    var slug := Slug(file.path);
    var matched := SplitFrontmatter(file.content);
    if matched.None? {
      return None;
    }
    var (header, body) := matched.value;
    var metadata := ParseMetadata(header);
    post := Some(Post(slug, FieldOr(metadata, "title", slug), FieldOr(metadata, "date", ""),
                      FieldOr(metadata, "description", ""), body));
  }

  /** `getPost`: the first post of the sorted list with the slug. */
  method GetPost(files: seq<PostFile>, dateKey: string -> int, slug: string) returns (post: Option<Post>)
    ensures post == FindBySlug(SortByDate(ParsedPosts(files), dateKey), slug)
  {
    var posts := GetPosts(files, dateKey);
    post := FindBySlug(posts, slug);
  }
}
