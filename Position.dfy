/** The job-position record the app displays and stores as liked. */
module Positions {
  import opened Wrappers

  /** A position as the screens use it; `salary` and `image_url` are optional
      fields, and `jobType` is the record's `type` field. */
  datatype Position = Position(
    id: string,
    title: string,
    company: string,
    location: string,
    jobType: string,
    description: string,
    requirements: seq<string>,
    responsibilities: seq<string>,
    salary: Option<string>,
    postedAt: string,
    image_url: Option<string>)
}
