/** A model of the subreddit scraper: the credential guard, the walk over the
    "top" listing that keeps recent posts until 100 have been kept, the mapping
    of a post to a flat record, and the split between the warning for an empty
    result and the success outcome with its CSV file name.
 */
module Scraper {

  /** Most posts kept per run: the loop breaks once this many are kept. */
  const MaxPosts: nat := 100

  /** Most candidates requested from the "top" listing (`limit=300`). */
  const ListingLimit: nat := 300

  /** Appended to the subreddit name to form the download file name. */
  const FileSuffix: string := "_last_6_months.csv"

  /** The author reference of a post: absent when the account is deleted. */
  datatype Author = NoAuthor | Account(name: string)

  /** One entry of the listing, with its creation time in whole epoch seconds. */
  datatype Post = Post(
    id: string,
    title: string,
    author: Author,
    createdUtc: int,
    selftext: string,
    score: int,
    numComments: int,
    url: string)

  /** One row of the result table and of the exported CSV. */
  datatype PostRecord = PostRecord(
    postId: string,
    title: string,
    author: string,
    timestamp: int,
    text: string,
    score: int,
    comments: int,
    url: string)

  /** The three strings typed into the sidebar. */
  datatype Credentials = Credentials(clientId: string, clientSecret: string, userAgent: string)

  /** What the listing request produced: the ranked posts, or an exception. */
  datatype Fetch = Listing(posts: seq<Post>) | Raised

  /** What one press of the button shows. */
  datatype Outcome =
    | MissingCredentials
    | Failed
    | NoPosts
    | Success(records: seq<PostRecord>, fileName: string)

  // ---------------------------------------------------------------------------
  // Sequences in order

  /** `a` can be obtained from `b` by deleting elements, keeping the order. */
  predicate IsSubsequence<T(==)>(a: seq<T>, b: seq<T>)
    decreases |b|
  {
    a == [] ||
    (b != [] && ((a[0] == b[0] && IsSubsequence(a[1..], b[1..])) || IsSubsequence(a, b[1..])))
  }

  lemma {:induction false} SubsequencePrefix<T>(a: seq<T>, b: seq<T>, k: nat)
    requires IsSubsequence(a, b) && k <= |a|
    ensures IsSubsequence(a[..k], b)
    decreases |b|
  {
    if k == 0 {
    } else if a[0] == b[0] && IsSubsequence(a[1..], b[1..]) {
      SubsequencePrefix(a[1..], b[1..], k - 1);
      assert a[..k][1..] == a[1..][..k - 1];
    } else {
      SubsequencePrefix(a, b[1..], k);
    }
  }

  // ---------------------------------------------------------------------------
  // Record mapping (lines 42-51)

  /** The "Author" column: the account name, or "Unknown" when there is none. */
  function AuthorLabel(a: Author): (shown: string)
    ensures shown == "Unknown" <==> a in {NoAuthor, Account("Unknown")}
    ensures a.Account? ==> shown == a.name
  {
    match a
    case NoAuthor => "Unknown"
    case Account(name) => name
  }

  function ToRecord(p: Post): (r: PostRecord)
    ensures r.author == "Unknown" <==> (p.author == NoAuthor || p.author.name == "Unknown")
    ensures p.author.Account? ==> r.author == p.author.name
    ensures r.postId == p.id && r.title == p.title && r.timestamp == p.createdUtc
    ensures r.text == p.selftext && r.score == p.score && r.comments == p.numComments && r.url == p.url
  {
    PostRecord(p.id, p.title, AuthorLabel(p.author), p.createdUtc, p.selftext, p.score, p.numComments, p.url)
  }

  /** Two posts give the same record exactly when they agree on every field but
      the author, and their authors are both labelled alike: the only
      information the mapping loses is the difference between a missing
      author and an account literally called "Unknown". */
  lemma RecordCollision(p: Post, q: Post)
    ensures ToRecord(p) == ToRecord(q) <==>
      p == q ||
      (p.(author := NoAuthor) == q.(author := NoAuthor) &&
       {p.author, q.author} == {NoAuthor, Account("Unknown")})
  {
  }

  /** The records of a sequence of posts, in the same order. */
  function Records(ps: seq<Post>): (rs: seq<PostRecord>)
    ensures |rs| == |ps|
    ensures forall i :: 0 <= i < |ps| ==> rs[i] == ToRecord(ps[i])
  {
    if ps == [] then [] else [ToRecord(ps[0])] + Records(ps[1..])
  }

  lemma {:induction false} RecordsPreserveOrder(a: seq<Post>, b: seq<Post>)
    requires IsSubsequence(a, b)
    ensures IsSubsequence(Records(a), Records(b))
    decreases |b|
  {
    if a == [] {
    } else if a[0] == b[0] && IsSubsequence(a[1..], b[1..]) {
      RecordsPreserveOrder(a[1..], b[1..]);
      assert Records(a)[1..] == Records(a[1..]);
      assert Records(b)[1..] == Records(b[1..]);
    } else {
      RecordsPreserveOrder(a, b[1..]);
      assert Records(b)[1..] == Records(b[1..]);
    }
  }

  // ---------------------------------------------------------------------------
  // Recency filter and cap (lines 40-54)

  /** The filter of line 41: created at or after the cutoff. */
  predicate IsRecent(p: Post, cutoff: int)
  {
    p.createdUtc >= cutoff
  }

  /** The posts of `s` that pass the recency filter, in listing order. */
  function Filter(s: seq<Post>, cutoff: int): (r: seq<Post>)
    ensures |r| <= |s|
    ensures forall i :: 0 <= i < |r| ==> IsRecent(r[i], cutoff)
  {
    if s == [] then []
    else (if IsRecent(s[0], cutoff) then [s[0]] else []) + Filter(s[1..], cutoff)
  }

  lemma {:induction false} FilterAppend(a: seq<Post>, b: seq<Post>, cutoff: int)
    ensures Filter(a + b, cutoff) == Filter(a, cutoff) + Filter(b, cutoff)
  {
    if a == [] {
      assert a + b == b;
    } else {
      var head := if IsRecent(a[0], cutoff) then [a[0]] else [];
      assert (a + b)[0] == a[0];
      assert (a + b)[1..] == a[1..] + b;
      calc {
        Filter(a + b, cutoff);
        head + Filter(a[1..] + b, cutoff);
        { FilterAppend(a[1..], b, cutoff); }
        head + (Filter(a[1..], cutoff) + Filter(b, cutoff));
        (head + Filter(a[1..], cutoff)) + Filter(b, cutoff);
        Filter(a, cutoff) + Filter(b, cutoff);
      }
    }
  }

  /** A post is kept by the filter exactly when it is in the listing and recent. */
  lemma {:induction false} FilterMembership(s: seq<Post>, cutoff: int, p: Post)
    ensures p in Filter(s, cutoff) <==> p in s && IsRecent(p, cutoff)
  {
    if s != [] {
      FilterMembership(s[1..], cutoff, p);
      assert s == [s[0]] + s[1..];
    }
  }

  lemma {:induction false} FilterPreservesOrder(s: seq<Post>, cutoff: int)
    ensures IsSubsequence(Filter(s, cutoff), s)
  {
    if s != [] {
      FilterPreservesOrder(s[1..], cutoff);
      var rest := Filter(s[1..], cutoff);
      if IsRecent(s[0], cutoff) {
        assert Filter(s, cutoff) == [s[0]] + rest;
        assert Filter(s, cutoff)[1..] == rest;
      } else {
        assert Filter(s, cutoff) == rest;
      }
    }
  }

  /** Each post occurs in the filtered listing exactly as often as in the
      listing when it is recent, and not at all otherwise: repeated posts are
      all kept. */
  lemma {:induction false} FilterMultiplicity(s: seq<Post>, cutoff: int, p: Post)
    ensures multiset(Filter(s, cutoff))[p] == if IsRecent(p, cutoff) then multiset(s)[p] else 0
  {
    if s != [] {
      FilterMultiplicity(s[1..], cutoff, p);
      assert s == [s[0]] + s[1..];
      var head := if IsRecent(s[0], cutoff) then [s[0]] else [];
      assert multiset(Filter(s, cutoff)) == multiset(head) + multiset(Filter(s[1..], cutoff));
    }
  }

  /** When every post is recent the filter keeps the whole listing. */
  lemma {:induction false} FilterAllRecent(s: seq<Post>, cutoff: int)
    requires forall i :: 0 <= i < |s| ==> IsRecent(s[i], cutoff)
    ensures Filter(s, cutoff) == s
  {
    if s != [] {
      FilterAllRecent(s[1..], cutoff);
      assert s == [s[0]] + s[1..];
    }
  }

  /** At most `n` leading elements of `s`. */
  function Take<T>(s: seq<T>, n: nat): (r: seq<T>)
    ensures |r| == (if |s| <= n then |s| else n)
    ensures r == s[..|r|]
  {
    if |s| <= n then s else s[..n]
  }

  /** The first 300 entries of the ranked listing: all the loop ever sees. */
  function Candidates(posts: seq<Post>): (c: seq<Post>)
    ensures |c| <= ListingLimit && |c| <= |posts| && c == posts[..|c|]
    ensures |posts| <= ListingLimit ==> c == posts
  {
    Take(posts, ListingLimit)
  }

  /** The records the loop produces: the first 100 recent posts, as records. */
  function Selection(listing: seq<Post>, cutoff: int): (r: seq<PostRecord>)
    ensures |r| <= MaxPosts && |r| <= |listing|
  {
    Records(Take(Filter(listing, cutoff), MaxPosts))
  }

  /** The selection holds min(100, k) records, k the number of recent posts, and
      is exactly the leading part of the filtered listing. */
  lemma SelectionIsPrefix(listing: seq<Post>, cutoff: int)
    ensures var k := |Filter(listing, cutoff)|;
      |Selection(listing, cutoff)| == (if k <= MaxPosts then k else MaxPosts)
    ensures Selection(listing, cutoff) == Records(Filter(listing, cutoff))[..|Selection(listing, cutoff)|]
  {
  }

  /** Every kept record was created at or after the cutoff. */
  lemma SelectionRecent(listing: seq<Post>, cutoff: int)
    ensures forall r :: r in Selection(listing, cutoff) ==> r.timestamp >= cutoff
  {
  }

  /** The kept records appear in the same relative order as in the listing. */
  lemma SelectionPreservesOrder(listing: seq<Post>, cutoff: int)
    ensures IsSubsequence(Selection(listing, cutoff), Records(listing))
  {
    var f := Filter(listing, cutoff);
    FilterPreservesOrder(listing, cutoff);
    SubsequencePrefix(f, listing, |Take(f, MaxPosts)|);
    assert Take(f, MaxPosts) == f[..|Take(f, MaxPosts)|];
    RecordsPreserveOrder(Take(f, MaxPosts), listing);
  }

  /** Fewer than 100 kept records means no recent post was passed over. */
  lemma SelectionMaximal(listing: seq<Post>, cutoff: int, p: Post)
    requires p in listing && IsRecent(p, cutoff)
    requires |Selection(listing, cutoff)| < MaxPosts
    ensures ToRecord(p) in Selection(listing, cutoff)
  {
    var f := Filter(listing, cutoff);
    FilterMembership(listing, cutoff, p);
    var i :| 0 <= i < |f| && f[i] == p;
    assert Selection(listing, cutoff)[i] == ToRecord(p);
  }

  /** A listing of recent posts only yields its first min(100, n) posts. */
  lemma AllRecentTakesLeading(listing: seq<Post>, cutoff: int)
    requires forall i :: 0 <= i < |listing| ==> IsRecent(listing[i], cutoff)
    ensures Selection(listing, cutoff) == Records(Take(listing, MaxPosts))
  {
    FilterAllRecent(listing, cutoff);
  }

  /** A listing with no recent post yields nothing. */
  lemma NoneRecentEmpty(listing: seq<Post>, cutoff: int)
    requires forall i :: 0 <= i < |listing| ==> !IsRecent(listing[i], cutoff)
    ensures Selection(listing, cutoff) == []
  {
    var f := Filter(listing, cutoff);
    if f != [] {
      FilterMembership(listing, cutoff, f[0]);
      assert false;
    }
  }

  /** Drawing one more post extends the filtered prefix by that post when it is
      recent, and leaves it alone otherwise. */
  lemma FilterStep(listing: seq<Post>, i: nat, cutoff: int)
    requires i < |listing|
    ensures Records(Filter(listing[..i + 1], cutoff)) ==
      Records(Filter(listing[..i], cutoff)) + (if IsRecent(listing[i], cutoff) then [ToRecord(listing[i])] else [])
  {
    var p := listing[i];
    FilterAppend(listing[..i], [p], cutoff);
    assert listing[..i + 1] == listing[..i] + [p];
    assert Filter([p], cutoff) == if IsRecent(p, cutoff) then [p] else [];
  }

  /** Once the walk has stopped, either because the listing is exhausted or
      because 100 posts are kept, what it kept is the selection. */
  lemma StoppedWalkIsSelection(listing: seq<Post>, examined: nat, cutoff: int)
    requires examined <= |listing|
    requires |Filter(listing[..examined], cutoff)| <= MaxPosts
    requires examined == |listing| || |Filter(listing[..examined], cutoff)| == MaxPosts
    ensures Records(Filter(listing[..examined], cutoff)) == Selection(listing, cutoff)
  {
    assert listing[..examined] + listing[examined..] == listing;
    FilterAppend(listing[..examined], listing[examined..], cutoff);
    if examined == |listing| {
      assert listing[..examined] == listing;
    }
  }

  /** The loop of lines 37-54: walk the listing in order, append the record of
      every recent post, and stop as soon as 100 have been kept. `examined`
      is the number of posts drawn from the listing before the loop ended. */
  method SelectPosts(listing: seq<Post>, cutoff: int) returns (data: seq<PostRecord>, examined: nat)
    ensures data == Selection(listing, cutoff)
    ensures examined <= |listing|
    ensures data == Records(Filter(listing[..examined], cutoff))
    ensures examined < |listing| ==> |data| == MaxPosts
    ensures |data| == MaxPosts ==> 0 < examined && IsRecent(listing[examined - 1], cutoff)
  {
    data := [];
    var count := 0;
    examined := 0;
    while examined < |listing|
      invariant examined <= |listing|
      invariant count == |data| < MaxPosts
      invariant data == Records(Filter(listing[..examined], cutoff))
    {
      var post := listing[examined];
      FilterStep(listing, examined, cutoff);
      if post.createdUtc >= cutoff {
        data := data + [ToRecord(post)];
        count := count + 1;
      }
      examined := examined + 1;
      if count >= MaxPosts {
        break;
      }
    }
    StoppedWalkIsSelection(listing, examined, cutoff);
  }

  // ---------------------------------------------------------------------------
  // Credential guard, outcome split and file name (lines 21-73)

  /** The guard of line 22: every credential string is non-empty. */
  predicate CredentialsComplete(c: Credentials): (ok: bool)
    ensures ok <==> "" !in [c.clientId, c.clientSecret, c.userAgent]
  {
    c.clientId != "" && c.clientSecret != "" && c.userAgent != ""
  }

  /** The download file name of line 66. */
  function FileName(subreddit: string): (f: string)
    ensures |f| == |subreddit| + |FileSuffix|
    ensures f[..|subreddit|] == subreddit && f[|subreddit|..] == FileSuffix
  {
    subreddit + FileSuffix
  }

  /** Different subreddits never share a download file name. */
  lemma FileNameInjective(a: string, b: string)
    requires FileName(a) == FileName(b)
    ensures a == b
  {
  }

  /** One press of the button, as a value: the guard, the listing, the loop
      over its first 300 entries, and the empty / non-empty split. */
  function Scrape(creds: Credentials, subreddit: string, cutoff: int, fetch: Fetch): (o: Outcome)
    ensures o == MissingCredentials <==> !CredentialsComplete(creds)
    ensures o == Failed <==> CredentialsComplete(creds) && fetch == Raised
    ensures o == NoPosts <==>
      CredentialsComplete(creds) && fetch.Listing? && Selection(Candidates(fetch.posts), cutoff) == []
    ensures o.Success? ==>
      fetch.Listing? &&
      o.records == Selection(Candidates(fetch.posts), cutoff) &&
      0 < |o.records| <= MaxPosts &&
      o.fileName == FileName(subreddit) &&
      (forall r :: r in o.records ==> r.timestamp >= cutoff) &&
      IsSubsequence(o.records, Records(Candidates(fetch.posts)))
  {
    if !CredentialsComplete(creds) then MissingCredentials
    else match fetch
      case Raised => Failed
      case Listing(posts) =>
        var data := Selection(Candidates(posts), cutoff);
        SelectionIsPrefix(Candidates(posts), cutoff);
        SelectionRecent(Candidates(posts), cutoff);
        SelectionPreservesOrder(Candidates(posts), cutoff);
        if data == [] then NoPosts else Success(data, FileName(subreddit))
  }

  /** When a credential is missing nothing else is looked at: the subreddit,
      the cutoff and the listing make no difference. */
  lemma MissingCredentialsIgnoresListing(
    creds: Credentials, s1: string, s2: string, c1: int, c2: int, f1: Fetch, f2: Fetch)
    requires !CredentialsComplete(creds)
    ensures Scrape(creds, s1, c1, f1) == Scrape(creds, s2, c2, f2) == MissingCredentials
  {
  }

  /** Entries of the listing past the 300th never change what is shown. */
  lemma BeyondLimitIgnored(creds: Credentials, subreddit: string, cutoff: int, a: seq<Post>, b: seq<Post>)
    requires |a| >= ListingLimit && |b| >= ListingLimit && a[..ListingLimit] == b[..ListingLimit]
    ensures Scrape(creds, subreddit, cutoff, Listing(a)) == Scrape(creds, subreddit, cutoff, Listing(b))
  {
  }

  /** The button handler of lines 21-73, step by step. */
  method OnScrapeClicked(creds: Credentials, subreddit: string, cutoff: int, fetch: Fetch)
    returns (o: Outcome)
    ensures o == Scrape(creds, subreddit, cutoff, fetch)
  {
    if !CredentialsComplete(creds) {
      return MissingCredentials;
    }
    if fetch == Raised {
      return Failed;
    }
    var data, _ := SelectPosts(Candidates(fetch.posts), cutoff);
    if data != [] {
      o := Success(data, FileName(subreddit));
    } else {
      o := NoPosts;
    }
  }
}
