# Content pipeline of a Markdown blog, in Dafny

This project models the content pipeline of a small Go blog server (`main.go`).
Each post is a text file: a YAML front matter block, a line `---`, then a
Markdown body. The pipeline:

- splits a file into its metadata block and body, and fails when there is no
  delimiter (`parsePost`);
- lists every post under `posts/`, skips files that fail to load, stamps each
  post with its file's base name, and sorts the list by date, newest first,
  comparing the date strings byte by byte (`GetAllPosts`);
- looks up one post by identifier, behind a guard on the resolved path
  (`GetPost`);
- builds the RSS feed: drafts are dropped, and each remaining post gets a
  two-paragraph description and a link built from the request's host
  (`RSSHandler`).

Modules, one per component:

- `Wrappers`: `Option` and `Result`.
- `Text`: the parts of Go's `strings` package that are used. These are
  `Index` (inside `SplitN`), `Split`, `HasPrefix` and `Compare`, plus `Join`
  to state the split's round trip, with their round-trip and ordering lemmas. Strings are sequences of characters. Comparing
  characters by code point orders UTF-8 text the same way as Go's byte-wise
  comparison.
- `Paths`: `filepath.Base`, written out for slash-separated paths, and
  `filepath.Join` expressed through a `clean` oracle.
- `Posts`: the post record, the metadata the YAML decoder yields, the
  filesystem, the front-matter split and `parsePost`.
- `Repository`: `GetAllPosts` and `GetPost`.
  - `GetAllPosts` is a method. Its loop collects the loaded posts and an
    in-place sort on an `array` orders them. Its contract ties the result to
    `Loaded`, the file-by-file specification of what is collected.
  - `Loaded` is stated for any per-file loader. `Loader` is the one the code
    uses: `parsePost` against the filesystem, with the decoder and renderer.
  - `GetPost` is a function, together with the corrected lookup described
    under Findings.
- `Feed`: the feed items and the fixed channel.
  - The description loop (`Describe`) and the item loop (`BuildFeed`) are
    methods, proved against the functions `Summary` and `FeedItems`.

The libraries the code calls are parameters:

- the YAML decoder `decode` (metadata text to `Metadata` or an error message);
- the Markdown renderer `render` (total);
- the date formatter `formatDate`, which stands for `FormatDate` with the RFC 1123
  layout (that function gives `""` for a date it cannot parse);
- the path normaliser `clean` (`filepath.Clean`).

The filesystem is a map from path to entry:

- a path missing from the map does not exist (what `os.Stat` reports as not-exist);
- `Unreadable` is a path that exists but cannot be read, such as a directory;
- the glob result `posts/*.md` is given as a sequence of paths.

Behaviour of the code a reader might not expect:

- The identifier keeps the `.md` extension.
- Only `GetAllPosts` sets the identifier. A post returned by `GetPost` keeps
  the empty identifier, or the value of a `filename` key in its metadata.
  The YAML decoder `yaml.v2` matches every exported field by its lower-cased
  name, and this field has no tag.
- The lookup guard tests only for the text prefix `posts`, which is weaker
  than "inside the content directory" (see Findings).
- A failed glob is not modelled. The pattern is a constant, and `filepath.Glob`
  fails only on a malformed pattern. So the listing never returns an error,
  and the feed's error branch cannot be reached.

Behaviour worth knowing, proved below:

- A body with no `</p>` gets one `</p>` appended to its description.
- So does a body with exactly one `</p>`: `"<p>a</p>"` is described as
  `"<p>a</p></p>"`.

## Model

| member | source | states |
|---|---|---|
| `Text.IndexOf` | main.go:221 | the position found holds the pattern and no earlier position does; none is found exactly when the pattern does not occur |
| `Text.Split` | main.go:124 | definition of `strings.Split` by successive leftmost cuts; characterised by `Text.JoinSplit`, `Text.SplitPiecesFree` and `Text.SplitLeftmost` |
| `Text.JoinSplit` | main.go:124 | joining the fragments of `strings.Split` with the separator gives back the original text |
| `Text.SplitPiecesFree` | main.go:124 | no fragment of `strings.Split` contains the separator |
| `Text.SplitLeftmost` | main.go:124 | `strings.Split` cuts at the left-most occurrence: more than one piece exactly when the separator occurs, the first piece ending where it first occurs and the rest being the split of what follows |
| `Text.HasPrefix` | main.go:195 | definition of `strings.HasPrefix`; characterised by `Repository.GetPost` and `Repository.GuardAdmitsSibling` |
| `Text.Compare` | main.go:184 | `strings.Compare` yields -1, 0 or 1, and 0 exactly for equal strings |
| `Text.CompareAntisymmetric` | main.go:183-185 | swapping the operands negates the comparison, so any two dates are ordered one way or the other |
| `Text.CompareTransitive` | main.go:183-185 | "sorts at or after" is transitive, so the descending date order is a total preorder |
| `Text.CompareCommonPrefix` | main.go:184 | a shared prefix does not change the comparison; comparison is decided at the first differing character |
| `Paths.Base` | main.go:178 | definition of `filepath.Base` on slash-separated paths; characterised by `Paths.BaseIsOneElement` and `Paths.BaseOfChild` |
| `Paths.BaseIsOneElement` | main.go:178 | `filepath.Base` is never empty and is a single element (or "/") |
| `Paths.BaseOfChild` | main.go:178 | the base name of `dir/name` is `name`, extension included |
| `Paths.Join` | main.go:193 | definition of `filepath.Join` of two elements as the cleaned concatenation; characterised by `Repository.GuardAdmitsSibling` |
| `Posts.ReadFile` | main.go:214-218 | definition of `os.ReadFile` on the filesystem map; characterised by `Posts.ParsePost` (read failure exactly for a missing or unreadable file) |
| `Posts.SplitFrontMatter` | main.go:221-225 | succeeds exactly when `"\n---\n"` occurs; the content is then metadata + delimiter + body with no delimiter starting inside the metadata; otherwise the error is "invalid front matter" |
| `Posts.Apply` | main.go:209-228 | definition of decoding into the prefilled post (keys present overwrite, absent keys keep "" and `draft` false); characterised by `Posts.ParseComposed` and `Posts.DraftDefaultsToFalse` |
| `Posts.ParsePost` | main.go:208-243 | a read failure is exactly an unreadable or missing file; "invalid front matter" exactly a readable file without a delimiter; a post only comes from a readable file with a delimiter |
| `Posts.SplitComposed` | main.go:221 | metadata + delimiter + body splits back into exactly that metadata and that body, later delimiters staying in the body |
| `Posts.ParseComposed` | main.go:209-240 | a well-formed file loads into the decoded fields, the defaults ("" and `draft` false) for absent keys, and the rendered body |
| `Posts.DraftDefaultsToFalse` | main.go:209-228 | metadata without a `draft` key gives a post that is not a draft |
| `Posts.MetadataErrorSurfaces` | main.go:228-232 | a metadata block the decoder rejects gives a metadata error carrying the decoder's reason |
| `Repository.Loader` | main.go:172 | definition of the per-file load as `parsePost` on the filesystem; characterised by `Posts.ParsePost` and `Repository.GetAllPosts` |
| `Repository.Stamped` | main.go:178 | definition of a loaded post with its identifier set to the file's base name; characterised by `Repository.LoadedFilenames` |
| `Repository.Loaded` | main.go:170-180 | definition of the collection loop, file by file, skipping files that fail; characterised by `Repository.LoadedAppend`, `LoadedSound`, `LoadedComplete`, `LoadedAll`, `LoadedNone` and `LoadedFilenames` |
| `Repository.LoadedAppend` | main.go:170-180 | files are loaded independently: the collection for two groups of files is the first group's followed by the second's |
| `Repository.LoadedSound` | main.go:170-180 | every collected post is the post of a file that loads, with that file's base name as identifier |
| `Repository.LoadedComplete` | main.go:170-180 | every file that loads has its post, with its base name as identifier, in the collection |
| `Repository.LoadedAll` | main.go:170-180 | when every file loads, the collection holds one post per file, in glob order, each stamped with its file's base name |
| `Repository.LoadedNone` | main.go:170-188 | when no file loads the collection is empty, not an error |
| `Repository.GlobName` | main.go:164-178 | for a path the glob yields, the base name is the file's name inside `posts`, ending in ".md" |
| `Repository.LoadedFilenames` | main.go:164-178 | every listed identifier, prefixed with "posts/", is one of the globbed paths, and ends in ".md" |
| `Repository.LexicalNotChronological` | main.go:183-185 | dates are ordered as text and not as instants: an earlier instant with a larger offset is listed first |
| `Repository.SortByDate` | main.go:182-185 | after the in-place sort the dates descend byte-wise and the array is a permutation of the one before; stability is not promised |
| `Repository.GetAllPosts` | main.go:162-189 | the result is sorted by date descending and is, as a multiset, exactly the loaded posts stamped with their base names |
| `Repository.Resolve` | main.go:193 | definition of the joined path `posts` + cleaned identifier; characterised by `Repository.GetPost` and `Repository.GuardAdmitsSibling` |
| `Repository.LoadAt` | main.go:199-204 | definition of the existence test followed by `parsePost`; characterised by `Repository.GetPost` |
| `Repository.GetPost` | main.go:192-205 | not-found exactly when the joined path lacks the prefix "posts" or does not exist; otherwise the result of loading that path, load errors kept distinct from not-found |
| `Repository.RejectedIgnoresFileSystem` | main.go:195-197 | an identifier the guard rejects is answered the same whatever the filesystem holds, so nothing is read |
| `Repository.GuardAdmitsSibling` | main.go:193-197 | with the real Clean, "../postscript.md" passes the guard and reads `postscript.md` outside `posts/` |
| `Repository.TraversalRejected` | main.go:193-197 | with the real Clean values, "../../etc/passwd" resolves to "../etc/passwd", which fails the guard, so it is not found on any filesystem |
| `Repository.GetPostContained` | main.go:192-205 | not-found exactly when the joined path is not inside `posts/` or does not exist; agrees with the code's lookup on every path inside `posts/` |
| `Repository.ContainedReadsOnlyContentDir` | main.go:192-205 | the corrected lookup gives the same answer on any two filesystems that agree inside `posts/` |
| `Feed.Summary` | main.go:124-130 | definition of the two-paragraph description; characterised by `Feed.SummaryOfShortBody`, `Feed.SummaryOfLongBody` and `Feed.Describe` |
| `Feed.ItemOf` | main.go:132-138 | definition of one feed item from a post; characterised by `Feed.FeedItemsSound` and `Feed.FeedItemsComplete` |
| `Feed.SummaryOfShortBody` | main.go:124-130 | a body with fewer than two `</p>` is described as the whole body followed by `</p>` |
| `Feed.SummaryOfLongBody` | main.go:124-130 | a body with two or more `</p>` is described by its own text up to and including the second `</p>` |
| `Feed.Describe` | main.go:124-130 | the description loop yields the first min(2, k) fragments of the split, each followed by `</p>` |
| `Feed.FeedItems` | main.go:119-140 | definition of the item loop over the non-draft posts; characterised by `Feed.FeedItemsAppend`, `DraftExcluded`, `FeedItemsSound`, `FeedItemsComplete`, `FeedItemsAllPublished` and `Feed.BuildFeed` |
| `Feed.FeedItemsAppend` | main.go:119-140 | items are built post by post in input order: the items of two runs of posts are the first run's followed by the second's |
| `Feed.DraftExcluded` | main.go:121-122 | a draft adds no item, whatever its date or position |
| `Feed.FeedItemsSound` | main.go:121-138 | every item is the item of a non-draft post; its link is "http://" + host + "/post/" + its GUID |
| `Feed.FeedItemsComplete` | main.go:121-138 | every non-draft post has its item (title, link, description, date, GUID = identifier) in the feed |
| `Feed.FeedItemsAllPublished` | main.go:119-140 | without drafts the feed has one item per post, the k-th item being that of the k-th post |
| `Feed.BuildFeed` | main.go:119-151 | the feed has version "2.0", the fixed channel title, link, description and language, and exactly the items of the non-draft posts in order |

## Left out

- HTTP routing, the handlers' response writing, `main` and the static file
  server: these are I/O around the pipeline.
- Template parsing and execution, and the template function table: these
  belong to a foreign library.
- YAML decoding: the `decode` parameter.
- Markdown and footnote rendering: the `render` parameter.
- `FormatDate`, that is RFC 3339 parsing and RFC 1123 formatting: the
  `formatDate` parameter.
- `Trivia`: it is clock-based randomness.
- `filepath.Clean`: the `clean` parameter.
- `filepath.Glob`: given as a sequence of paths. Its failure cannot happen
  for the constant pattern.
- `os.ReadFile` and `os.Stat`: the filesystem map. Races between the stat and
  the read are not modelled.
- XML serialisation of the feed and its content type headers: the model
  stops at the feed value.
- Logging.
- Files that are not valid UTF-8: strings are sequences of Unicode characters.
- `Repository.SortByDate`: the code's `sort.Slice` (pattern-defeating
  quicksort) is modelled by an insertion sort with the same contract: sorted
  and a permutation. The order of posts with equal dates is unspecified in
  the code, and no contract here fixes it.
- `Posts.ParsePost`: a decoder error leaves the partly decoded post behind in
  the code. Every caller discards it, so the model returns only the error.
- A `body` key in the metadata is not modelled. The code decodes it and then
  overwrites it with the rendered body, so it has no effect.

## Findings

| source | as written | input that shows it | evidently intended | confidence | as-written member | corrected member |
|---|---|---|---|---|---|---|
| main.go:195 | the guard accepts any joined path that starts with the text "posts" | identifier "../postscript.md": Clean leaves it as is, Join gives "postscript.md", which passes the guard and names a file outside `posts/` | only paths inside the `posts/` directory are read | medium, not executed; only direct calls can reach it, because the `/post/{title}` route gives identifiers without "/" | `Repository.GuardAdmitsSibling` | `Repository.GetPostContained` |
