/** The JSON shape that the Flask endpoint `/api/videos` produces and the
    React view consumes: one video record per video, the channel summary,
    and the whole response. Both sides of the model import it. */
module Api {

  /** A value that may be absent (a missing key in a statistics object, or
      `null` in component state). */
  datatype Option<+T> = None | Some(value: T) {
    function GetOr(default: T): T {
      match this
      case Some(v) => v
      case None => default
    }
  }

  /** One element of the `videos` array: the record built by the backend
      and the row rendered by the table. Counts are non-negative integers;
      the other fields are text. */
  datatype Video = Video(
    title: string,
    description: string,
    thumbnail: string,
    publishedAt: string,
    views: nat,
    likes: nat,
    videoId: string,
    youtubeUrl: string,
    duration: string)

  /** The `channelInfo` object of the response. */
  datatype ChannelInfo = ChannelInfo(
    name: string,
    totalViews: nat,
    subscriberCount: nat,
    videoCount: nat)

  /** The whole JSON body returned on success. */
  datatype Response = Response(
    channelInfo: ChannelInfo,
    videos: seq<Video>,
    totalViews: nat)
}
