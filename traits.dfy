/** The traits of src/traits.rs: what a pool, a key (`Info`) and a resource
    provide. Rust traits become plain Dafny types here: the two operations a
    pool needs from its collaborators, `Info::try_create` and
    `Resource::clear`, are function values that each caller passes in, since
    nothing is known about them beyond their signatures. */
module Traits {

  /** Rust's `Option`. */
  datatype Option<T> = None | Some(value: T)

  /** What a call that may panic does: it returns a value, or it panics. */
  datatype Outcome<T> = Returned(value: T) | Panicked

  /** `Info::try_create(info, ctx)`: a fresh resource for the key `info`,
      built with the context `ctx`, or `None` when it cannot be created. */
  type TryCreate<!I, !C, R> = (I, C) -> Option<R>

  /** `Resource::clear`: the resource reset to a reusable state. Rust's
      `&mut self` method becomes a function from the old value to the new. */
  type Clear<!R> = R -> R

  /** `Pool::lease`, the trait's default method: `try_lease(info, ctx)`
      unwrapped, given what `try_lease` returned. It panics exactly when
      `try_lease` returned `None`, and otherwise returns that very lease. */
  function Unwrap<L>(tried: Option<L>): (outcome: Outcome<L>)
    ensures outcome.Panicked? <==> tried.None?
    ensures outcome.Returned? ==> tried == Some(outcome.value)
  {
    match tried
    case Some(lease) => Returned(lease)
    case None => Panicked
  }
}
