/** The single-shot deferred completion (Deferred.js is not part of this
    model; its behaviour is the one Promise resolve/reject give it). */
module Completion {
  import opened Outcomes

  datatype Settlement = Waiting | Resolved(count: nat) | Rejected(error: Error)

  /** A postponed low-level read: the length it asked for and its promise. */
  datatype Deferred = Deferred(length: nat, state: Settlement)

  /** Resolving settles a waiting deferred; a settled one ignores it. */
  function Resolve(d: Deferred, n: nat): (r: Deferred)
    ensures r.length == d.length
    ensures d.state.Waiting? ==> r.state == Resolved(n)
    ensures !d.state.Waiting? ==> r == d
  {
    if d.state.Waiting? then d.(state := Resolved(n)) else d
  }

  /** Rejecting settles a waiting deferred; a settled one ignores it. */
  function Reject(d: Deferred, e: Error): (r: Deferred)
    ensures r.length == d.length
    ensures d.state.Waiting? ==> r.state == Rejected(e)
    ensures !d.state.Waiting? ==> r == d
  {
    if d.state.Waiting? then d.(state := Rejected(e)) else d
  }

  /** Single shot: once settled, neither resolve nor reject changes the outcome. */
  lemma SettledOnce(d: Deferred, n: nat, e: Error)
    ensures Resolve(Resolve(d, n), n + 1) == Resolve(d, n)
    ensures Reject(Resolve(d, n), e) == Resolve(d, n)
    ensures Resolve(Reject(d, e), n) == Reject(d, e)
  {
  }
}
