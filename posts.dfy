/**
 * One post file: reading it, splitting its front matter from its body,
 * decoding the metadata and rendering the body (parsePost in main.go).
 * The YAML decoder and the Markdown renderer are oracles passed in by the
 * caller; the filesystem is a map from path to entry.
 */
module Posts {
  import opened Wrappers
  import opened Text

  datatype Post = Post(
    filename: string,
    title: string,
    date: string,
    tags: string,
    draft: bool,
    body: string)

  /** What the YAML decoder found in a metadata block.  A present key
      overwrites the field of the post it decodes into; an absent key leaves
      that field as it was.  The decoder maps every exported field of the
      post under its lower-cased name, so a `filename` key is decoded too. */
  datatype Metadata = Metadata(
    title: Option<string>,
    date: Option<string>,
    tags: Option<string>,
    draft: Option<bool>,
    filename: Option<string>)

  /** What a path names: a file whose contents can be read, or something that
      exists but cannot be read (a directory, a file without permission).
      A path that is not in the map does not exist. */
  datatype Entry = Readable(content: string) | Unreadable

  type FileSystem = map<string, Entry>

  datatype LoadError = ReadFailed | InvalidFrontMatter | MetadataInvalid(reason: string)

  /** The line of three hyphens that ends the front matter. */
  const Delimiter: string := "\n---\n"

  /** The post every load starts from: all fields empty, not a draft. */
  const EmptyPost: Post := Post("", "", "", "", false, "")

  /** os.ReadFile */
  function ReadFile(fs: FileSystem, path: string): Result<string, LoadError> {
    if path in fs && fs[path].Readable? then Ok(fs[path].content) else Err(ReadFailed)
  }

  /** strings.SplitN(content, Delimiter, 2), failing when there are fewer than
      two parts: the metadata block before the first delimiter and the body
      after it, verbatim. */
  function SplitFrontMatter(content: string): (r: Result<(string, string), LoadError>)
    ensures r.Ok? <==> Contains(content, Delimiter)
    ensures r.Err? ==> r.error == InvalidFrontMatter
    ensures r.Ok? ==> content == r.value.0 + Delimiter + r.value.1
    ensures r.Ok? ==> forall i :: 0 <= i < |r.value.0| ==> !OccursAt(content, Delimiter, i)
  {
    match IndexOf(content, Delimiter)
    case None => Err(InvalidFrontMatter)
    case Some(i) =>
      var meta, body := content[..i], content[i + |Delimiter|..];
      assert content == meta + content[i..i + |Delimiter|] + body;
      Ok((meta, body))
  }

  /** Decoding metadata into a post: present keys overwrite, absent keys keep
      the post's field. */
  function Apply(p: Post, m: Metadata): Post {
    p.(filename := m.filename.GetOr(p.filename),
       title := m.title.GetOr(p.title),
       date := m.date.GetOr(p.date),
       tags := m.tags.GetOr(p.tags),
       draft := m.draft.GetOr(p.draft))
  }

  /** parsePost: read the file, split it, decode the metadata block into the
      default post and replace the body by the rendered remainder. */
  function ParsePost(fs: FileSystem, path: string,
                     decode: string -> Result<Metadata, string>,
                     render: string -> string): (r: Result<Post, LoadError>)
    ensures r == Err(ReadFailed) <==> !(path in fs && fs[path].Readable?)
    ensures r == Err(InvalidFrontMatter) <==>
              path in fs && fs[path].Readable? && !Contains(fs[path].content, Delimiter)
    ensures r.Ok? ==> path in fs && fs[path].Readable? && Contains(fs[path].content, Delimiter)
  {
    match ReadFile(fs, path)
    case Err(e) => Err(e)
    case Ok(content) =>
      match SplitFrontMatter(content)
      case Err(e) => Err(e)
      case Ok((meta, body)) =>
        match decode(meta)
        case Err(reason) => Err(MetadataInvalid(reason))
        case Ok(m) => Ok(Apply(EmptyPost, m).(body := render(body)))
  }

  /** A file written as metadata, delimiter, body splits back into exactly
      that metadata and that body, as long as no delimiter starts inside the
      metadata; the body may itself contain delimiters. */
  lemma SplitComposed(meta: string, body: string)
    requires forall i :: 0 <= i < |meta| ==> !OccursAt(meta + Delimiter, Delimiter, i)
    ensures SplitFrontMatter(meta + Delimiter + body) == Ok((meta, body))
  {
    var content := meta + Delimiter + body;
    assert content[|meta|..|meta| + |Delimiter|] == Delimiter;
    assert OccursAt(content, Delimiter, |meta|);
    forall i | 0 <= i < |meta|
      ensures !OccursAt(content, Delimiter, i)
    {
      var head := meta + Delimiter;
      assert content[..|head|] == head;
      assert !OccursAt(head, Delimiter, i);
      assert content[i..i + |Delimiter|] == head[i..i + |Delimiter|];
    }
    var r := SplitFrontMatter(content);
    assert r.Ok?;
    var (m, b) := r.value;
    assert |m| == |meta|;
    assert m == content[..|m|] == meta;
    assert b == content[|m| + |Delimiter|..] == body;
  }

  /** Loading a well-formed file: the post carries the decoded metadata, the
      defaults for every absent key (in particular `draft` is false unless
      the metadata sets it), and the rendering of the body. */
  lemma ParseComposed(fs: FileSystem, path: string, meta: string, body: string, m: Metadata,
                      decode: string -> Result<Metadata, string>, render: string -> string)
    requires path in fs && fs[path] == Readable(meta + Delimiter + body)
    requires forall i :: 0 <= i < |meta| ==> !OccursAt(meta + Delimiter, Delimiter, i)
    requires decode(meta) == Ok(m)
    ensures ParsePost(fs, path, decode, render) ==
              Ok(Post(m.filename.GetOr(""), m.title.GetOr(""), m.date.GetOr(""),
                      m.tags.GetOr(""), m.draft.GetOr(false), render(body)))
  {
    SplitComposed(meta, body);
  }

  /** A post whose metadata has no `draft` key is not a draft. */
  lemma DraftDefaultsToFalse(fs: FileSystem, path: string, m: Metadata,
                             decode: string -> Result<Metadata, string>, render: string -> string)
    requires path in fs && fs[path].Readable?
    requires SplitFrontMatter(fs[path].content).Ok?
    requires decode(SplitFrontMatter(fs[path].content).value.0) == Ok(m)
    requires m.draft.None?
    ensures ParsePost(fs, path, decode, render).Ok?
    ensures !ParsePost(fs, path, decode, render).value.draft
  {
  }

  /** A metadata block the decoder rejects surfaces as a metadata error. */
  lemma MetadataErrorSurfaces(fs: FileSystem, path: string, reason: string,
                              decode: string -> Result<Metadata, string>, render: string -> string)
    requires path in fs && fs[path].Readable?
    requires SplitFrontMatter(fs[path].content).Ok?
    requires decode(SplitFrontMatter(fs[path].content).value.0) == Err(reason)
    ensures ParsePost(fs, path, decode, render) == Err(MetadataInvalid(reason))
  {
  }
}
