/**
 * The ways a clustering call can fail.  Three of them are the exceptions the
 * Python code raises; the other two stand for its unbounded loops, which the
 * model runs on a finite supply of random draws or passes.
 */
module Results {

  datatype Error =
    | UnknownResidue(code: string)   // KeyError: a residue code outside the one-letter table
    | EmptyMin                       // ValueError: min() of an empty sequence
    | SampleTooLarge                 // ValueError: random.sample asked for more items than the pool has
    | NoDistinctSample               // every centroid draw repeated a sequence (the resampling loop never stops)
    | NotConverged                   // the assignment fixed point was not reached within the given passes

  datatype Result<+T> = Ok(value: T) | Err(error: Error)
}
