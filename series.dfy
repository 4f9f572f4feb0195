/** Time keys shared by the price series and the finance table. */
module Series {

  /**
    A pandas `Timestamp`: an int64 count of nanoseconds since the epoch, so two
    timestamps compare and order exactly as these integers do.
  */
  type Timestamp = int
}
