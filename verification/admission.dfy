/** The server's admission control: a `Semaphore(maxThreads)` acquired by the
    listener before every `accept` and released by each handler's cleanup.
    Blocking is modelled as the absence of a successor state. */
module Admission {
  import opened Prelude

  /** The semaphore's count of free permits. */
  datatype Pool = Pool(available: nat)

  /** `new Semaphore(maxThreads)` */
  function NewPool(maxThreads: nat): (p: Pool)
    ensures p.available == maxThreads
  {
    Pool(maxThreads)
  }

  /** `semaphore.acquire()`: takes one permit, or None while the caller would
      block because every permit is held. */
  function Acquire(p: Pool): (r: Option<Pool>)
    ensures r.None? <==> p.available == 0
    ensures r.Some? ==> r.value.available + 1 == p.available
  {
    if p.available == 0 then None else Some(Pool(p.available - 1))
  }

  /** `semaphore.release()`: returns one permit; never blocks, never fails. */
  function Release(p: Pool): (r: Pool)
    ensures r.available == p.available + 1
  {
    Pool(p.available + 1)
  }

  /** A release undoes an acquire, and an acquire after a release always
      succeeds and gives back the pool it started from. */
  lemma AcquireReleaseInverse(p: Pool)
    ensures Acquire(Release(p)) == Some(p)
    ensures p.available > 0 ==> Acquire(p).Some? && Release(Acquire(p).value) == p
  {
  }
}
