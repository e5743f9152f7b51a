/** The one piece of the server's start-up kept in the model: the worker-count range. */
module Startup {

  /**
   * `main` asserts that WORKERS lies strictly between 0 and 500 before it
   * binds the endpoint or spawns anything; the benchmark client checks its
   * own WORKERS argument the same way.
   */
  predicate WorkerCountAccepted(n: int) {
    n > 0 && n < 500
  }

  /** Accepted counts are exactly 1 through 499; 0 and 500 are the first refused on either side. */
  lemma WorkerCountRange(n: int)
    ensures WorkerCountAccepted(n) <==> 1 <= n <= 499
    ensures !WorkerCountAccepted(0) && !WorkerCountAccepted(500)
    ensures WorkerCountAccepted(1) && WorkerCountAccepted(499)
  {
  }
}
