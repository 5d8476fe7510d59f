/**
 * The post repository: listing every post under the content directory
 * (GetAllPosts) and looking one up by identifier (GetPost).  The glob result
 * is given as a sequence of paths, and Clean is an oracle.
 */
module Repository {
  import opened Wrappers
  import opened Text
  import opened Paths
  import opened Posts

  /** The directory the posts live in. */
  const ContentDir: string := "posts"

  /** `p` is a path the glob pattern for posts (every ".md" file in "posts") can produce: a single name
      directly inside the content directory, ending in ".md". */
  predicate GlobMatch(p: string) {
    HasPrefix(p, ContentDir + [Separator])
    && Separator !in p[|ContentDir| + 1..]
    && HasSuffix(p[|ContentDir| + 1..], ".md")
  }

  /** May `p` come before `q` in the listing: its date sorts at or after q's. */
  predicate NotOlder(p: Post, q: Post) {
    Compare(p.date, q.date) >= 0
  }

  /** Dates in descending byte-wise order. */
  predicate Sorted(s: seq<Post>) {
    forall i, j :: 0 <= i < j < |s| ==> NotOlder(s[i], s[j])
  }

  /** How the listing loads one path: a post or the reason it failed. */
  type Load = string -> Result<Post, LoadError>

  /** The loader GetAllPosts uses: parsePost against a filesystem. */
  function Loader(fs: FileSystem, decode: string -> Result<Metadata, string>,
                  render: string -> string): Load
  {
    path => ParsePost(fs, path, decode, render)
  }

  /** The post a file contributes, stamped with the file's base name. */
  function Stamped(load: Load, path: string): Post
    requires load(path).Ok?
  {
    load(path).value.(filename := Base(path))
  }

  /** What one file contributes to the listing: its stamped post, or nothing
      when it fails to load. */
  function Contribution(load: Load, path: string): seq<Post> {
    if load(path).Ok? then [Stamped(load, path)] else []
  }

  /** The posts GetAllPosts collects before sorting, file by file in glob order. */
  function Loaded(load: Load, files: seq<string>): seq<Post>
    decreases |files|
  {
    if files == [] then []
    else Loaded(load, files[..|files| - 1]) + Contribution(load, files[|files| - 1])
  }

  /** Each file is loaded independently of the others: the listing of two
      groups of files is the listing of the first followed by that of the second. */
  lemma {:induction false} LoadedAppend(load: Load, a: seq<string>, b: seq<string>)
    ensures Loaded(load, a + b) == Loaded(load, a) + Loaded(load, b)
    decreases |b|
  {
    if b == [] {
      assert a + b == a;
    } else {
      var b' := b[..|b| - 1];
      assert (a + b)[..|a + b| - 1] == a + b';
      LoadedAppend(load, a, b');
    }
  }

  /** Every listed post comes from a file that loads, stamped with that
      file's base name. */
  lemma {:induction false} LoadedSound(load: Load, files: seq<string>, k: nat)
    requires k < |Loaded(load, files)|
    ensures exists i :: 0 <= i < |files| && load(files[i]).Ok?
              && Loaded(load, files)[k] == Stamped(load, files[i])
    decreases |files|
  {
    var n := |files| - 1;
    var init := files[..n];
    var prefix := Loaded(load, init);
    if k < |prefix| {
      LoadedSound(load, init, k);
      var i :| 0 <= i < |init| && load(init[i]).Ok? && prefix[k] == Stamped(load, init[i]);
      assert init[i] == files[i];
    } else {
      assert load(files[n]).Ok?;
    }
  }

  /** Every file that loads is listed, stamped with its base name. */
  lemma {:induction false} LoadedComplete(load: Load, files: seq<string>, i: nat)
    requires i < |files| && load(files[i]).Ok?
    ensures Stamped(load, files[i]) in Loaded(load, files)
    decreases |files|
  {
    if i < |files| - 1 {
      var init := files[..|files| - 1];
      assert init[i] == files[i];
      LoadedComplete(load, init, i);
    }
  }

  /** When every file loads, the collection has one post per file, and the
      k-th post is the k-th file's, stamped with its base name. */
  lemma {:induction false} LoadedAll(load: Load, files: seq<string>, k: nat)
    requires forall i :: 0 <= i < |files| ==> load(files[i]).Ok?
    requires k < |files|
    ensures |Loaded(load, files)| == |files|
    ensures Loaded(load, files)[k] == Stamped(load, files[k])
    decreases |files|
  {
    var n := |files| - 1;
    var init := files[..n];
    if n > 0 {
      assert forall i :: 0 <= i < |init| ==> init[i] == files[i];
      LoadedAll(load, init, if k < n then k else 0);
    }
  }

  /** When no file loads, the listing is empty (and not an error). */
  lemma {:induction false} LoadedNone(load: Load, files: seq<string>)
    requires forall i :: 0 <= i < |files| ==> load(files[i]).Err?
    ensures Loaded(load, files) == []
    decreases |files|
  {
    if files != [] {
      var init := files[..|files| - 1];
      assert forall i :: 0 <= i < |init| ==> init[i] == files[i];
      LoadedNone(load, init);
    }
  }

  /** For paths the glob produces, every listed post's identifier is the
      file's name inside the content directory, ".md" extension kept. */
  lemma LoadedFilenames(load: Load, files: seq<string>, k: nat)
    requires forall i :: 0 <= i < |files| ==> GlobMatch(files[i])
    requires k < |Loaded(load, files)|
    ensures ContentDir + [Separator] + Loaded(load, files)[k].filename in files
    ensures HasSuffix(Loaded(load, files)[k].filename, ".md")
  {
    LoadedSound(load, files, k);
    var i :| 0 <= i < |files| && load(files[i]).Ok? && Loaded(load, files)[k] == Stamped(load, files[i]);
    GlobName(files[i]);
  }

  /** The base name of a glob match is its name inside the content directory. */
  lemma GlobName(path: string)
    requires GlobMatch(path)
    ensures path == ContentDir + [Separator] + Base(path)
    ensures HasSuffix(Base(path), ".md")
  {
    var name := path[|ContentDir| + 1..];
    assert path == ContentDir + [Separator] + name;
    BaseOfChild(ContentDir, name);
  }

  /** The listing orders dates as text, not as instants: a post dated
      2024-01-02T00:00:00+05:00 (19:00 UTC on the 1st) must be listed before
      one dated 2024-01-01T23:00:00Z, four hours later in time. */
  lemma LexicalNotChronological(p: Post, q: Post)
    requires p.date == "2024-01-02T00:00:00+05:00" && q.date == "2024-01-01T23:00:00Z"
    ensures Sorted([p, q]) && !Sorted([q, p])
  {
    var common := "2024-01-0";
    assert p.date == common + "2T00:00:00+05:00";
    assert q.date == common + "1T23:00:00Z";
    CompareCommonPrefix(common, "2T00:00:00+05:00", "1T23:00:00Z");
    assert Compare("2T00:00:00+05:00", "1T23:00:00Z") == 1;
    CompareAntisymmetric(p.date, q.date);
    SortedPair(p, q);
    SortedPair(q, p);
  }

  /** Two posts are in listing order exactly when the first is not older. */
  lemma SortedPair(p: Post, q: Post)
    ensures Sorted([p, q]) <==> NotOlder(p, q)
  {
    assert [p, q][0] == p && [p, q][1] == q;
  }

  /** Exchanges a[i] and a[j]. */
  method Swap(a: array<Post>, i: nat, j: nat)
    requires i < a.Length && j < a.Length
    modifies a
    ensures a[i] == old(a[j]) && a[j] == old(a[i])
    ensures forall k :: 0 <= k < a.Length && k != i && k != j ==> a[k] == old(a[k])
    ensures multiset(a[..]) == old(multiset(a[..]))
  {
    a[i], a[j] := a[j], a[i];
  }

  /** sort.Slice(posts, Compare(posts[i].Date, posts[j].Date) > 0), here by
      insertion: afterwards the dates descend and the posts are a permutation
      of the ones before.  Nothing is said about the order of posts with equal
      dates. */
  method SortByDate(a: array<Post>)
    modifies a
    ensures Sorted(a[..])
    ensures multiset(a[..]) == old(multiset(a[..]))
  {
    for i := 0 to a.Length
      invariant Sorted(a[..i])
      invariant multiset(a[..]) == old(multiset(a[..]))
    {
      var j := i;
      while j > 0 && Compare(a[j].date, a[j - 1].date) > 0
        invariant 0 <= j <= i
        invariant forall k, l :: 0 <= k < l <= i && k != j && l != j ==> NotOlder(a[k], a[l])
        invariant forall l :: j < l <= i ==> NotOlder(a[j], a[l])
        invariant multiset(a[..]) == old(multiset(a[..]))
      {
        CompareAntisymmetric(a[j].date, a[j - 1].date);
        Swap(a, j - 1, j);
        j := j - 1;
      }
      if j > 0 {
        CompareAntisymmetric(a[j].date, a[j - 1].date);
        forall k | 0 <= k < j - 1
          ensures NotOlder(a[k], a[j])
        {
          CompareTransitive(a[k].date, a[j - 1].date, a[j].date);
        }
      }
    }
  }

  /** GetAllPosts: load every file of the glob result, skipping the ones that
      fail, stamp each post with its file's base name, and sort by date.  The
      result is sorted and holds exactly the loaded posts. */
  method GetAllPosts(fs: FileSystem, files: seq<string>,
                     decode: string -> Result<Metadata, string>,
                     render: string -> string) returns (posts: seq<Post>)
    ensures Sorted(posts)
    ensures multiset(posts) == multiset(Loaded(Loader(fs, decode, render), files))
  {
    var collected: seq<Post> := [];
    for i := 0 to |files|
      invariant collected == Loaded(Loader(fs, decode, render), files[..i])
    {
      var file := files[i];
      assert files[..i + 1][..i] == files[..i];
      var loaded := ParsePost(fs, file, decode, render);
      assert Loader(fs, decode, render)(file) == loaded;
      if loaded.Err? {
        continue;
      }
      var post := loaded.value.(filename := Base(file));
      collected := collected + [post];
    }
    assert files[..|files|] == files;
    var a := new Post[|collected|](k requires 0 <= k < |collected| => collected[k]);
    assert a[..] == collected;
    SortByDate(a);
    posts := a[..];
  }

  datatype LookupError = NotFound | LoadFailed(cause: LoadError)

  /** The path GetPost reads for an identifier: filepath.Join("posts",
      filepath.Clean(id)). */
  function Resolve(clean: string -> string, id: string): string {
    Paths.Join(clean, ContentDir, clean(id))
  }

  /** Loading the file at a resolved path, errors of the load kept distinct
      from a missing file. */
  function LoadAt(fs: FileSystem, path: string,
                  decode: string -> Result<Metadata, string>,
                  render: string -> string): Result<Post, LookupError>
  {
    if path !in fs then Err(NotFound)
    else match ParsePost(fs, path, decode, render)
      case Ok(p) => Ok(p)
      case Err(e) => Err(LoadFailed(e))
  }

  /** GetPost as written: the resolved path must start with the text "posts".
      "Not found" means exactly that the path fails that test or names
      nothing; a file that exists but fails to load is a load error.  The
      post is returned as loaded: its identifier is not stamped. */
  function GetPost(fs: FileSystem, id: string, clean: string -> string,
                   decode: string -> Result<Metadata, string>,
                   render: string -> string): (r: Result<Post, LookupError>)
    ensures r == Err(NotFound) <==>
              !HasPrefix(Resolve(clean, id), ContentDir) || Resolve(clean, id) !in fs
    ensures r.Ok? ==> ParsePost(fs, Resolve(clean, id), decode, render) == Ok(r.value)
    ensures r.Err? && r.error.LoadFailed? ==>
              ParsePost(fs, Resolve(clean, id), decode, render) == Err(r.error.cause)
  {
    var path := Resolve(clean, id);
    if !HasPrefix(path, ContentDir) then Err(NotFound)
    else LoadAt(fs, path, decode, render)
  }

  /** Two filesystems with the same entries under the content directory. */
  ghost predicate AgreeInside(fs1: FileSystem, fs2: FileSystem) {
    forall p :: HasPrefix(p, ContentDir + [Separator]) ==>
      (p in fs1 <==> p in fs2) && (p in fs1 ==> fs1[p] == fs2[p])
  }

  /** A rejected identifier is answered without looking at the filesystem. */
  lemma RejectedIgnoresFileSystem(fs1: FileSystem, fs2: FileSystem, id: string,
                                  clean: string -> string,
                                  decode: string -> Result<Metadata, string>,
                                  render: string -> string)
    requires !HasPrefix(Resolve(clean, id), ContentDir)
    ensures GetPost(fs1, id, clean, decode, render) == GetPost(fs2, id, clean, decode, render)
  {
  }

  /** The guard as written lets "../postscript.md" through: it resolves to
      "postscript.md", outside the content directory, which starts with the
      text "posts".  Two filesystems that agree on everything inside the
      content directory then answer differently. */
  lemma GuardAdmitsSibling(clean: string -> string,
                           decode: string -> Result<Metadata, string>,
                           render: string -> string)
    requires clean("../postscript.md") == "../postscript.md"
    requires clean("posts/../postscript.md") == "postscript.md"
    ensures AgreeInside(map["postscript.md" := Readable("x")], map[])
    ensures GetPost(map["postscript.md" := Readable("x")], "../postscript.md", clean, decode, render)
            == Err(LoadFailed(InvalidFrontMatter))
    ensures GetPost(map[], "../postscript.md", clean, decode, render) == Err(NotFound)
  {
    var id := "../postscript.md";
    assert ContentDir + [Separator] + id == "posts/../postscript.md";
    assert HasPrefix("postscript.md", ContentDir);
    var inside := ContentDir + [Separator];
    assert !HasPrefix("postscript.md", inside) by {
      assert "postscript.md"[5] == 'c' != inside[5];
    }
    assert !OccursAt("x", Delimiter, 0);
    assert !Contains("x", Delimiter);
  }

  /** An identifier that climbs out of the content directory by two levels is
      rejected: "../../etc/passwd" resolves to "../etc/passwd", which does not
      start with "posts", so it is not found whatever the filesystem holds. */
  lemma TraversalRejected(fs: FileSystem, clean: string -> string,
                          decode: string -> Result<Metadata, string>,
                          render: string -> string)
    requires clean("../../etc/passwd") == "../../etc/passwd"
    requires clean("posts/../../etc/passwd") == "../etc/passwd"
    ensures GetPost(fs, "../../etc/passwd", clean, decode, render) == Err(NotFound)
  {
    assert ContentDir + [Separator] + "../../etc/passwd" == "posts/../../etc/passwd";
    assert !HasPrefix("../etc/passwd", ContentDir) by {
      assert "../etc/passwd"[0] == '.' != ContentDir[0];
    }
  }

  /** The lookup with the guard the text-prefix test stands for: the resolved
      path lies inside `posts/`. */
  function GetPostContained(fs: FileSystem, id: string, clean: string -> string,
                            decode: string -> Result<Metadata, string>,
                            render: string -> string): (r: Result<Post, LookupError>)
    ensures r == Err(NotFound) <==>
              !HasPrefix(Resolve(clean, id), ContentDir + [Separator]) || Resolve(clean, id) !in fs
    ensures HasPrefix(Resolve(clean, id), ContentDir + [Separator]) ==>
              r == GetPost(fs, id, clean, decode, render)
  {
    var path := Resolve(clean, id);
    if !HasPrefix(path, ContentDir + [Separator]) then Err(NotFound)
    else LoadAt(fs, path, decode, render)
  }

  /** The corrected lookup depends only on what is inside the content directory. */
  lemma ContainedReadsOnlyContentDir(fs1: FileSystem, fs2: FileSystem, id: string,
                                     clean: string -> string,
                                     decode: string -> Result<Metadata, string>,
                                     render: string -> string)
    requires AgreeInside(fs1, fs2)
    ensures GetPostContained(fs1, id, clean, decode, render)
            == GetPostContained(fs2, id, clean, decode, render)
  {
    var path := Resolve(clean, id);
    if HasPrefix(path, ContentDir + [Separator]) {
      assert path in fs1 <==> path in fs2;
      if path in fs1 {
        assert fs1[path] == fs2[path];
        assert ParsePost(fs1, path, decode, render) == ParsePost(fs2, path, decode, render);
      }
    }
  }
}
