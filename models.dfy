/** The repository's only entity (AwesomeFacts.Models). */
module Models {

  /** A point in time, as the tick count of a UTC `DateTime`. */
  type Timestamp = nat

  /**
    * A fact record. `id` is a C# `int`, so a file may hold any 32-bit
    * integer there, negative ones included; `createdAt` is stamped by the
    * repository on creation.
    */
  datatype Fact = Fact(
    id: int,
    text: string,
    category: string,
    createdAt: Timestamp,
    isVerified: bool
  )
}
