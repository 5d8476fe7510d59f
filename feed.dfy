/**
 * The syndication feed built by RSSHandler: drafts are dropped, each other
 * post becomes an item with a link built from the request's host, a
 * description made of its first two paragraphs and a publication date from
 * the date formatter (an oracle yielding "" for a date it cannot parse).
 */
module Feed {
  import opened Text
  import opened Posts

  datatype Item = Item(title: string, link: string, description: string,
                       pubDate: string, guid: string)

  datatype Channel = Channel(title: string, link: string, description: string,
                             language: string, items: seq<Item>)

  datatype Rss = Rss(version: string, channel: Channel)

  /** The closing tag the body is cut at. */
  const ParagraphEnd: string := "</p>"

  /** The fragments, each followed by a closing tag, in order. */
  function Terminated(fragments: seq<string>): string
    decreases |fragments|
  {
    if fragments == [] then ""
    else Terminated(fragments[..|fragments| - 1]) + fragments[|fragments| - 1] + ParagraphEnd
  }

  /** The description of a body: the first two (or fewer) fragments of
      strings.Split(body, "</p>"), each followed by "</p>". */
  function Summary(body: string): string {
    var fragments := Split(body, ParagraphEnd);
    Terminated(fragments[..if |fragments| < 2 then |fragments| else 2])
  }

  /** The link of a post: "http://" + host + "/post/" + identifier. */
  function PostLink(host: string, filename: string): string {
    "http://" + host + "/post/" + filename
  }

  /** The feed item for a (non-draft) post. */
  function ItemOf(p: Post, host: string, formatDate: string -> string): Item {
    Item(p.title, PostLink(host, p.filename), Summary(p.body), formatDate(p.date), p.filename)
  }

  /** The items of the feed: one per non-draft post, in the order of the posts. */
  function FeedItems(posts: seq<Post>, host: string, formatDate: string -> string): seq<Item>
    decreases |posts|
  {
    if posts == [] then []
    else
      var last := posts[|posts| - 1];
      FeedItems(posts[..|posts| - 1], host, formatDate)
      + (if last.draft then [] else [ItemOf(last, host, formatDate)])
  }

  /** One or two fragments, each closed. */
  lemma TerminatedShort(a: string, b: string)
    ensures Terminated([a]) == a + ParagraphEnd
    ensures Terminated([a, b]) == a + ParagraphEnd + b + ParagraphEnd
  {
    assert [a][..0] == [] && [a, b][..1] == [a];
  }

  /** A body with at most one closing tag is described by the whole body with
      a closing tag appended, so a body without any still gets one. */
  lemma SummaryOfShortBody(body: string)
    requires |Split(body, ParagraphEnd)| <= 2
    ensures Summary(body) == body + ParagraphEnd
  {
    var f := Split(body, ParagraphEnd);
    JoinSplit(body, ParagraphEnd);
    if |f| == 2 {
      assert f[..2] == f == [f[0], f[1]];
      TerminatedShort(f[0], f[1]);
      assert f[1..] == [f[1]];
      assert Join(f, ParagraphEnd) == f[0] + ParagraphEnd + f[1];
    } else {
      assert f[..1] == f == [f[0]];
      TerminatedShort(f[0], "");
    }
  }

  /** Joining three or more fragments starts with the first two, closed. */
  lemma JoinStartsWithTwo(f: seq<string>)
    requires |f| > 2
    ensures Join(f, ParagraphEnd) == f[0] + ParagraphEnd + f[1] + ParagraphEnd + Join(f[2..], ParagraphEnd)
  {
    var tail := f[1..];
    assert tail[0] == f[1] && tail[1..] == f[2..];
  }

  /** A body with two or more closing tags is described by its own text up to
      and including the second of them. */
  lemma SummaryOfLongBody(body: string)
    requires |Split(body, ParagraphEnd)| > 2
    ensures Summary(body) ==
              Split(body, ParagraphEnd)[0] + ParagraphEnd + Split(body, ParagraphEnd)[1] + ParagraphEnd
    ensures HasPrefix(body, Summary(body))
    ensures HasSuffix(Summary(body), ParagraphEnd)
  {
    var f := Split(body, ParagraphEnd);
    var a, b := f[0], f[1];
    assert f[..2] == [a, b];
    TerminatedShort(a, b);
    var s := a + ParagraphEnd + b + ParagraphEnd;
    JoinSplit(body, ParagraphEnd);
    JoinStartsWithTwo(f);
    var rest := Join(f[2..], ParagraphEnd);
    assert body == s + rest;
    assert body[..|s|] == s;
  }

  /** The feed of two runs of posts is the feed of the first followed by
      the feed of the second: posts are handled one at a time, in order. */
  lemma {:induction false} FeedItemsAppend(a: seq<Post>, b: seq<Post>, host: string,
                                           formatDate: string -> string)
    ensures FeedItems(a + b, host, formatDate)
            == FeedItems(a, host, formatDate) + FeedItems(b, host, formatDate)
    decreases |b|
  {
    if b == [] {
      assert a + b == a;
    } else {
      var b' := b[..|b| - 1];
      assert (a + b)[..|a + b| - 1] == a + b';
      assert (a + b)[|a + b| - 1] == b[|b| - 1];
      FeedItemsAppend(a, b', host, formatDate);
    }
  }

  /** A draft contributes nothing to the feed, whatever its date. */
  lemma DraftExcluded(a: seq<Post>, p: Post, b: seq<Post>, host: string,
                      formatDate: string -> string)
    requires p.draft
    ensures FeedItems(a + [p] + b, host, formatDate) == FeedItems(a + b, host, formatDate)
  {
    FeedItemsAppend(a + [p], b, host, formatDate);
    FeedItemsAppend(a, [p], host, formatDate);
    FeedItemsAppend(a, b, host, formatDate);
    assert FeedItems([p], host, formatDate) == [] by {
      assert [p][..0] == [];
    }
  }

  /** Every item comes from a non-draft post, whose identifier is its GUID
      and the end of its link. */
  lemma {:induction false} FeedItemsSound(posts: seq<Post>, host: string,
                                          formatDate: string -> string, k: nat)
    requires k < |FeedItems(posts, host, formatDate)|
    ensures exists i :: 0 <= i < |posts| && !posts[i].draft
              && FeedItems(posts, host, formatDate)[k] == ItemOf(posts[i], host, formatDate)
    ensures FeedItems(posts, host, formatDate)[k].link
            == "http://" + host + "/post/" + FeedItems(posts, host, formatDate)[k].guid
    decreases |posts|
  {
    var init := posts[..|posts| - 1];
    var prefix := FeedItems(init, host, formatDate);
    if k < |prefix| {
      FeedItemsSound(init, host, formatDate, k);
      var i :| 0 <= i < |init| && !init[i].draft && prefix[k] == ItemOf(init[i], host, formatDate);
      assert init[i] == posts[i];
    } else {
      assert !posts[|posts| - 1].draft;
    }
  }

  /** Every non-draft post has its item in the feed. */
  lemma {:induction false} FeedItemsComplete(posts: seq<Post>, host: string,
                                             formatDate: string -> string, i: nat)
    requires i < |posts| && !posts[i].draft
    ensures ItemOf(posts[i], host, formatDate) in FeedItems(posts, host, formatDate)
    decreases |posts|
  {
    if i < |posts| - 1 {
      var init := posts[..|posts| - 1];
      assert init[i] == posts[i];
      FeedItemsComplete(init, host, formatDate, i);
    }
  }

  /** Without drafts the feed has one item per post, at the post's own position. */
  lemma {:induction false} FeedItemsAllPublished(posts: seq<Post>, host: string,
                                                 formatDate: string -> string)
    requires forall i :: 0 <= i < |posts| ==> !posts[i].draft
    ensures |FeedItems(posts, host, formatDate)| == |posts|
    ensures forall k :: 0 <= k < |posts| ==>
              FeedItems(posts, host, formatDate)[k] == ItemOf(posts[k], host, formatDate)
    decreases |posts|
  {
    if posts != [] {
      var n := |posts| - 1;
      var init := posts[..n];
      assert forall i :: 0 <= i < |init| ==> init[i] == posts[i];
      FeedItemsAllPublished(init, host, formatDate);
      var prefix := FeedItems(init, host, formatDate);
      var all := prefix + [ItemOf(posts[n], host, formatDate)];
      assert FeedItems(posts, host, formatDate) == all;
      forall k | 0 <= k < |posts|
        ensures all[k] == ItemOf(posts[k], host, formatDate)
      {
        if k < n {
          assert all[k] == prefix[k];
        }
      }
    }
  }

  /** The description loop of RSSHandler. */
  method Describe(body: string) returns (description: string)
    ensures description == Summary(body)
  {
    var paragraphs := Split(body, ParagraphEnd);
    description := "";
    for i := 0 to |paragraphs|
      invariant description == Terminated(paragraphs[..if i < 2 then i else 2])
    {
      if i < 2 {
        assert paragraphs[..i + 1][..i] == paragraphs[..i];
        description := description + paragraphs[i] + ParagraphEnd;
      }
    }
  }

  /** RSSHandler without the HTTP plumbing: the item loop over the listed
      posts and the fixed channel around it. */
  method BuildFeed(posts: seq<Post>, host: string, formatDate: string -> string)
    returns (feed: Rss)
    ensures feed.version == "2.0"
    ensures feed.channel.title == "io." && feed.channel.link == "http://io.myyc.dev"
    ensures feed.channel.description == "io.myyc.dev" && feed.channel.language == "en-gb"
    ensures feed.channel.items == FeedItems(posts, host, formatDate)
  {
    var items: seq<Item> := [];
    for i := 0 to |posts|
      invariant items == FeedItems(posts[..i], host, formatDate)
    {
      var post := posts[i];
      assert posts[..i + 1][..i] == posts[..i];
      if !post.draft {
        var description := Describe(post.body);
        items := items + [Item(post.title, PostLink(host, post.filename), description,
                               formatDate(post.date), post.filename)];
      }
    }
    assert posts[..|posts|] == posts;
    feed := Rss("2.0", Channel("io.", "http://io.myyc.dev", "io.myyc.dev", "en-gb", items));
  }
}
