/** The posting record the crawler extracts from a page and stores. */
module Listing {

  /** One job posting; `reqId` (the requisition identifier) is its natural key.
      Field order follows the record declaration; `scrapedAt` is an ISO-8601
      timestamp kept as text. */
  datatype JobListing = JobListing(
    reqId: string,
    title: string,
    location: string,
    category: string,
    payRange: string,
    positionType: string,
    deadline: string,
    description: string,
    qualifications: string,
    url: string,
    scrapedAt: string,
    techKeywords: string)
}
