/** The paste record kept in the bolt bucket "paste" (src/cmd/paste/types.go). */
module PasteTypes {

  /** An octet of paste content. */
  newtype byte = x: int | 0 <= x < 256

  /** A point in time, as nanoseconds after Go's zero instant (January 1, year 1, 00:00:00 UTC),
      so that the zero value of `time.Time` is `ZeroTime`. */
  type Time = int

  const ZeroTime: Time := 0

  /** One stored paste. `size` is the byte length of the text at creation. */
  datatype Paste = Paste(
    id: string,
    title: string,
    size: int,
    visibility: string,  // "public", "unlisted" or "encrypted"
    expire: Time,
    created: Time,
    updated: Time)

  /** The zero value `Paste{}`. */
  const ZeroPaste: Paste := Paste("", "", 0, "", ZeroTime, ZeroTime, ZeroTime)

  /** Every record is stored under its own id. */
  ghost predicate KeyedById(pastes: map<string, Paste>) {
    forall k :: k in pastes ==> pastes[k].id == k
  }
}
