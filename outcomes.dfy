/** Optional values, results, and the ways the report script can stop with an exception. */
module Outcomes {

  datatype Option<+T> = None | Some(value: T)

  datatype Result<+T, +E> = Ok(value: T) | Err(error: E)

  /** The three review metrics read from badges; also used to pick a metric column. */
  datatype Kind = Rating | Difficulty | Workload

  /** Exceptions of the aggregation stage that the model keeps as error results. */
  datatype PipelineError =
    | UnboundName(kind: Kind)     // NameError: a metric variable read before any badge assigned it
    | NoReviews(course: string)   // KeyError: groupby on a course whose review list stayed empty
    | NoCourses                   // KeyError: merge on 'name' when no course passed the review-count filter
}
