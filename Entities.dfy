/** The records the core reads and produces. */
module Entities {

  /**
   * A movie record. The store-assigned identifier is not part of the model:
   * neither the import nor the interval computation reads it.
   */
  datatype Movie = Movie(
    year: int,
    title: string,
    studios: string,
    producers: string,  // raw credit string, possibly naming several producers
    winner: bool
  )

  /** One pair of consecutive wins of one producer. */
  datatype ProducerInterval = ProducerInterval(
    producer: string,
    interval: int,
    previousWin: int,
    followingWin: int
  )

  /** The producers with the shortest and with the longest gap between two consecutive wins. */
  datatype AwardIntervalResponse = AwardIntervalResponse(
    min: seq<ProducerInterval>,
    max: seq<ProducerInterval>
  )
}
