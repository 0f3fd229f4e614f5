/** internal/entities: the two stored document shapes. */
module Entities {

  /**
   * A catalogue entry. `uniqueId` is the upstream video id and the key the
   * catalogue deduplicates on. The store-assigned `_id` is not modelled.
   */
  datatype Video = Video(uniqueId: string, title: string, description: string, publishedAt: string)

  /**
   * A stored API key. `lastUpdated` is the time of the last flag change, in
   * nanoseconds (Go's `time.Time` compared through `time.Duration`).
   */
  datatype ApiKey = ApiKey(key: string, isExpired: bool, lastUpdated: int)
}
