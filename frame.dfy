/**
 * The videos table the assistant passes between its stages (a pandas
 * DataFrame in the application): one row per kept search result, to which
 * the transcript stage and the summary stage each add a column in place.
 */
module Frame {
  import opened Wrappers

  /** One row of the videos table. `transcript` and `summary` are `None`
      until their stage has written them. */
  datatype Video = Video(
    title: string,
    duration: string,        // the provider's original "MM:SS" or "H:MM:SS" text
    durationMinutes: real,   // that duration in minutes
    views: int,              // the parsed view count
    channel: string,
    link: string,
    transcript: Option<string>,
    summary: Option<string>)

  /** The table itself, whose rows the pipeline stages overwrite in place. */
  class VideoFrame {
    var rows: seq<Video>

    constructor (rows: seq<Video>)
      ensures this.rows == rows
    {
      this.rows := rows;
    }
  }
}
