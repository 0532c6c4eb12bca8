/**
 * The records exchanged with the EPGStation recording server, reduced to the
 * fields the retention and deletion logic reads (main.go:46-62), and the
 * deletion policy (main.go:32-39).
 */
module Recorded {

  const MinInt64: int := -0x8000_0000_0000_0000
  const MaxInt64: int := 0x7fff_ffff_ffff_ffff

  /** Go's `int64`. */
  type Int64 = x: int | -0x8000_0000_0000_0000 <= x <= 0x7fff_ffff_ffff_ffff

  /** Go's `time.Duration`: a signed 64-bit count of nanoseconds. */
  type Duration = Int64

  const Nanosecond: Duration := 1
  const Millisecond: Duration := 1_000_000
  const Hour: Duration := 3_600_000_000_000

  /** One physical file of a recording; `fileType` is the server's free-text tag ("ts", "encoded", ...). */
  datatype VideoFile = VideoFile(id: Int64, fileType: string)

  /** One recorded programme; `startAt` is in Unix milliseconds. */
  datatype RecordedItem = RecordedItem(
    id: Int64,
    isProtected: bool,
    startAt: Int64,
    videoFiles: seq<VideoFile>)

  /** How long a recording is kept before its raw files may go. */
  datatype DeletionPolicy = DeletionPolicy(retainDuration: Duration)
}
