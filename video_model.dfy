/** The record shape of model/video.go: what the service stores and serves. */
module VideoModel {

  /** The three thumbnail URLs of a video. */
  datatype Thumbnails = Thumbnails(default: string, medium: string, high: string)

  /** One normalised video record; `id` is the external video ID and the store key. */
  datatype Video = Video(
    id: string,
    title: string,
    description: string,
    publishedAt: string,
    thumbnails: Thumbnails)
}
