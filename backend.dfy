/** The aggregation inside the Flask handler `get_videos`: channel
    statistics become the summary, every video of every fetched result page
    becomes one record, the view counts are summed, and the list is sorted
    by views, most viewed first. The YouTube client calls are not modelled:
    their results arrive as the parameters `stats` and `pages`. */
module Backend {
  import opened Api
  import Sorting

  /** Statistics of the channel as the API returned them; a statistic may
      be absent. */
  datatype ChannelStats = ChannelStats(
    viewCount: Option<nat>,
    subscriberCount: Option<nat>,
    videoCount: Option<nat>)

  /** One item of a `videos().list` response: a video's id, snippet,
      statistics and content details. The counts may be absent. */
  datatype Item = Item(
    id: string,
    title: string,
    description: string,
    thumbnail: string,
    publishedAt: string,
    viewCount: Option<nat>,
    likeCount: Option<nat>,
    duration: string)

  /** One round of the paging loop: the video ids of a search result page,
      and the detailed items that `videos().list` returns for those ids.
      The details are only requested when the page has ids. */
  datatype Page = Page(videoIds: seq<string>, details: seq<Item>)

  const WatchUrlPrefix: string := "https://www.youtube.com/watch?v="

  /** `int(stats.get(name, 0))` on a statistic that is already a count. */
  function CountOrZero(c: Option<nat>): (n: nat)
    ensures c.None? ==> n == 0
    ensures c.Some? ==> n == c.value
  {
    c.GetOr(0)
  }

  /** The summary object of the response. */
  function ChannelSummary(name: string, stats: ChannelStats): (r: ChannelInfo)
    ensures r.name == name
    ensures stats.viewCount.None? ==> r.totalViews == 0
    ensures stats.viewCount.Some? ==> r.totalViews == stats.viewCount.value
    ensures stats.subscriberCount.None? ==> r.subscriberCount == 0
    ensures stats.subscriberCount.Some? ==> r.subscriberCount == stats.subscriberCount.value
    ensures stats.videoCount.None? ==> r.videoCount == 0
    ensures stats.videoCount.Some? ==> r.videoCount == stats.videoCount.value
  {
    ChannelInfo(name, CountOrZero(stats.viewCount), CountOrZero(stats.subscriberCount),
                CountOrZero(stats.videoCount))
  }

  /** The record appended for one item. */
  function ToRecord(item: Item): (r: Video)
    ensures item.viewCount.None? ==> r.views == 0
    ensures item.viewCount.Some? ==> r.views == item.viewCount.value
    ensures item.likeCount.None? ==> r.likes == 0
    ensures item.likeCount.Some? ==> r.likes == item.likeCount.value
    ensures r.videoId == item.id && r.youtubeUrl == WatchUrlPrefix + item.id
    ensures r.title == item.title && r.description == item.description
    ensures r.thumbnail == item.thumbnail && r.publishedAt == item.publishedAt
    ensures r.duration == item.duration
  {
    Video(item.title, item.description, item.thumbnail, item.publishedAt,
          CountOrZero(item.viewCount), CountOrZero(item.likeCount),
          item.id, WatchUrlPrefix + item.id, item.duration)
  }

  /** Recovers the video id from a watch URL, the inverse of how
      `ToRecord` builds `youtubeUrl`. */
  function VideoIdOfUrl(url: string): (r: Option<string>)
    ensures r.Some? ==> url == WatchUrlPrefix + r.value
  {
    if |WatchUrlPrefix| <= |url| && url[..|WatchUrlPrefix|] == WatchUrlPrefix
    then Some(url[|WatchUrlPrefix|..])
    else None
  }

  lemma {:induction false} RecordUrlRoundTrip(item: Item)
    ensures VideoIdOfUrl(ToRecord(item).youtubeUrl) == Some(ToRecord(item).videoId)
  {
    var url := ToRecord(item).youtubeUrl;
    assert url[..|WatchUrlPrefix|] == WatchUrlPrefix;
    assert url[|WatchUrlPrefix|..] == item.id;
  }

  /** The records built from a run of items, in order. */
  function Records(items: seq<Item>): (r: seq<Video>)
    ensures |r| == |items|
  {
    if items == [] then [] else [ToRecord(items[0])] + Records(items[1..])
  }

  /** The items one page contributes: the details fetched for its ids, and
      none when the page has no ids. */
  function Contributed(page: Page): (items: seq<Item>)
    ensures page.videoIds == [] ==> items == []
    ensures page.videoIds != [] ==> items == page.details
  {
    if page.videoIds == [] then [] else page.details
  }

  /** The items of all pages, page after page. */
  function Fetched(pages: seq<Page>): seq<Item> {
    if pages == [] then [] else Fetched(pages[..|pages| - 1]) + Contributed(pages[|pages| - 1])
  }

  function SumViews(vs: seq<Video>): nat {
    if vs == [] then 0 else vs[0].views + SumViews(vs[1..])
  }

  /** Every record precedes the less viewed ones: the order that
      `sort(key=views, reverse=True)` leaves. */
  ghost predicate MostViewedFirst(vs: seq<Video>) {
    forall i, j | 0 <= i < j < |vs| :: vs[i].views >= vs[j].views
  }

  function ViewsAtLeast(): (Video, Video) -> bool {
    (a: Video, b: Video) => a.views >= b.views
  }

  /** `videos.sort(key=lambda x: x['views'], reverse=True)`. */
  function SortByViewsDescending(vs: seq<Video>): (r: seq<Video>)
    ensures |r| == |vs|
    ensures multiset(r) == multiset(vs)
    ensures MostViewedFirst(r)
  {
    Sorting.SortSorted(vs, ViewsAtLeast());
    Sorting.Sort(vs, ViewsAtLeast())
  }

  lemma {:induction false} SumViewsAppend(a: seq<Video>, b: seq<Video>)
    ensures SumViews(a + b) == SumViews(a) + SumViews(b)
  {
    if a == [] {
      assert a + b == b;
    } else {
      assert (a + b)[1..] == a[1..] + b;
      SumViewsAppend(a[1..], b);
    }
  }

  /** Taking one record out of a list takes its views out of the sum. */
  lemma {:induction false} SumViewsRemove(b: seq<Video>, i: nat)
    requires i < |b|
    ensures SumViews(b) == b[i].views + SumViews(b[..i] + b[i + 1..])
  {
    var front, x, back := b[..i], b[i], b[i + 1..];
    assert b == (front + [x]) + back;
    assert [x][1..] == [];
    SumViewsAppend(front + [x], back);
    SumViewsAppend(front, [x]);
    SumViewsAppend(front, back);
  }

  /** A sum over a reordering is the same sum. */
  lemma {:induction false} SumViewsPermutation(a: seq<Video>, b: seq<Video>)
    requires multiset(a) == multiset(b)
    ensures SumViews(a) == SumViews(b)
    decreases |a|
  {
    if a != [] {
      assert a[0] in b by {
        assert a[0] in multiset(a);
      }
      var i := Sorting.IndexOf(b, a[0]);
      var rest := b[..i] + b[i + 1..];
      Sorting.MultisetRemoveFirstOf(b, a, i);
      assert SumViews(a[1..]) == SumViews(rest) by {
        SumViewsPermutation(a[1..], rest);
      }
      assert SumViews(b) == a[0].views + SumViews(rest) by {
        SumViewsRemove(b, i);
      }
    }
  }

  lemma {:induction false} RecordsAt(items: seq<Item>, k: nat)
    requires k < |items|
    ensures Records(items)[k] == ToRecord(items[k])
  {
    if k > 0 {
      RecordsAt(items[1..], k - 1);
    }
  }

  lemma {:induction false} RecordsAppend(a: seq<Item>, b: seq<Item>)
    ensures Records(a + b) == Records(a) + Records(b)
  {
    if a == [] {
      assert a + b == b;
    } else {
      assert (a + b)[1..] == a[1..] + b;
      RecordsAppend(a[1..], b);
    }
  }

  lemma {:induction false} FetchedStep(pages: seq<Page>, p: nat)
    requires p < |pages|
    ensures Fetched(pages[..p + 1]) == Fetched(pages[..p]) + Contributed(pages[p])
  {
    assert pages[..p + 1][..p] == pages[..p];
  }

  /** Every record's `youtubeUrl` is the watch URL of its own id. */
  ghost predicate LinksToOwnVideo(vs: seq<Video>) {
    forall k | 0 <= k < |vs| :: vs[k].youtubeUrl == WatchUrlPrefix + vs[k].videoId
  }

  /** What reordering the appended records keeps: their number, their
      view total, and every record's watch URL. */
  lemma {:induction false} ReorderedRecords(items: seq<Item>, vs: seq<Video>)
    requires multiset(vs) == multiset(Records(items))
    ensures |vs| == |items|
    ensures SumViews(vs) == SumViews(Records(items))
    ensures LinksToOwnVideo(vs)
  {
    assert |vs| == |multiset(vs)| == |Records(items)|;
    SumViewsPermutation(Records(items), vs);
    forall j | 0 <= j < |vs|
      ensures vs[j].youtubeUrl == WatchUrlPrefix + vs[j].videoId
    {
      var v := vs[j];
      assert v in multiset(vs);
      var k :| 0 <= k < |items| && Records(items)[k] == v;
      RecordsAt(items, k);
    }
  }

  /** The inner `for` loop of `get_videos`: one record per item of a
      `videos().list` response, appended in order, its views added to the
      running total. */
  method AppendItems(videos: seq<Video>, totalViews: nat, items: seq<Item>)
      returns (videosOut: seq<Video>, totalOut: nat)
    requires totalViews == SumViews(videos)
    ensures videosOut == videos + Records(items)
    ensures totalOut == SumViews(videosOut)
  {
    videosOut, totalOut := videos, totalViews;
    var i := 0;
    assert items[..0] == [];
    while i < |items|
      invariant 0 <= i <= |items|
      invariant videosOut == videos + Records(items[..i])
      invariant totalOut == SumViews(videosOut)
    {
      var video := ToRecord(items[i]);
      assert videosOut + [video] == videos + Records(items[..i + 1])
          && totalOut + video.views == SumViews(videosOut + [video]) by {
        SumViewsAppend(videosOut, [video]);
        RecordsAppend(items[..i], [items[i]]);
        assert items[..i + 1] == items[..i] + [items[i]];
      }
      videosOut := videosOut + [video];
      totalOut := totalOut + video.views;
      i := i + 1;
    }
    assert items[..i] == items;
  }

  /** One round of the paging loop extends the records by those of the
      items the page contributes. */
  lemma {:induction false} CollectStep(pages: seq<Page>, p: nat, before: seq<Video>, after: seq<Video>)
    requires p < |pages|
    requires before == Records(Fetched(pages[..p]))
    requires pages[p].videoIds != [] ==> after == before + Records(pages[p].details)
    requires pages[p].videoIds == [] ==> after == before
    ensures after == Records(Fetched(pages[..p + 1]))
  {
    FetchedStep(pages, p);
    RecordsAppend(Fetched(pages[..p]), Contributed(pages[p]));
    if pages[p].videoIds == [] {
      assert Records(Contributed(pages[p])) == [];
      assert before + [] == before;
    }
  }

  /** The response body of `get_videos` for a channel called `name` with
      statistics `stats`, when the paging loop visits `pages` in order. */
  method GetVideos(name: string, stats: ChannelStats, pages: seq<Page>) returns (resp: Response)
    ensures resp.channelInfo == ChannelSummary(name, stats)
    ensures multiset(resp.videos) == multiset(Records(Fetched(pages)))
    ensures |resp.videos| == |Fetched(pages)|
    ensures MostViewedFirst(resp.videos)
    ensures resp.totalViews == SumViews(resp.videos)
    ensures LinksToOwnVideo(resp.videos)
  {
    var videos: seq<Video> := [];
    var totalViews: nat := 0;
    var p := 0;
    while p < |pages|
      invariant 0 <= p <= |pages|
      invariant videos == Records(Fetched(pages[..p]))
      invariant totalViews == SumViews(videos)
    {
      var page := pages[p];
      ghost var before := videos;
      if page.videoIds != [] {
        videos, totalViews := AppendItems(videos, totalViews, page.details);
      }
      CollectStep(pages, p, before, videos);
      p := p + 1;
    }
    assert pages[..p] == pages;
    videos := SortByViewsDescending(videos);
    ReorderedRecords(Fetched(pages), videos);
    resp := Response(ChannelSummary(name, stats), videos, totalViews);
  }
}
