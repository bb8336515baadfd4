/** `com.voba.model.ScanOptions`: the settings of a directory scan. Each
    setter changes its own field only and answers with the same object, so
    calls can be chained; the thread limit is never below one. */
module ScanSettings {
  import opened Wrappers

  /** The message `setMaxThreads` throws with. */
  const TooFewThreads := "maxThreads must be at least 1"

  class ScanOptions {
    var includeHiddenFiles: bool
    var useParallelProcessing: bool
    var maxThreads: int

    /** At least one thread may be used. */
    predicate Valid()
      reads this
    {
      maxThreads >= 1
    }

    /** `new ScanOptions()`: hidden files excluded, no parallel processing,
        as many threads as the runtime reports processors (which the
        runtime reports as at least one). */
    constructor (availableProcessors: int)
      requires availableProcessors >= 1
      ensures !includeHiddenFiles && !useParallelProcessing
      ensures maxThreads == availableProcessors
      ensures Valid()
    {
      includeHiddenFiles := false;
      useParallelProcessing := false;
      maxThreads := availableProcessors;
    }

    /** `setIncludeHiddenFiles(b)`. */
    method SetIncludeHiddenFiles(b: bool) returns (self: ScanOptions)
      modifies this`includeHiddenFiles
      ensures self == this && includeHiddenFiles == b
      ensures old(Valid()) ==> Valid()
    {
      includeHiddenFiles := b;
      self := this;
    }

    /** `setUseParallelProcessing(b)`. */
    method SetUseParallelProcessing(b: bool) returns (self: ScanOptions)
      modifies this`useParallelProcessing
      ensures self == this && useParallelProcessing == b
      ensures old(Valid()) ==> Valid()
    {
      useParallelProcessing := b;
      self := this;
    }

    /** `setMaxThreads(n)`: a count below one is refused with an
        `IllegalArgumentException` before anything is assigned. */
    method SetMaxThreads(n: int) returns (outcome: Outcome<string>, self: ScanOptions)
      modifies this`maxThreads
      ensures self == this
      ensures outcome.Fail? <==> n < 1
      ensures outcome.Fail? ==> outcome.error == TooFewThreads && maxThreads == old(maxThreads)
      ensures outcome.Pass? ==> maxThreads == n
      ensures old(Valid()) ==> Valid()
    {
      self := this;
      if n < 1 {
        return Fail(TooFewThreads), self;
      }
      maxThreads := n;
      outcome := Pass;
    }
  }
}
