/** Results and the errors an operation can report (src/error.rs), without their message texts. */
module Errors {
  datatype Error =
    | StorageIsNotForSlate
    | IncompatibleVersion(major: nat, minor: nat)
    | TooLargePayload(size: nat)
    | DamagedStorage
    | IncorrectEntryHeadOffset(expected: nat, actual: nat)
    | ChecksumVerificationFailed(at: nat, length: nat, expectedSum: nat, actualSum: nat)
    | InternalStateInconsistency
    | SampleVerificationFailed
    | InvalidArgument
    | Callback
    | UnexpectedEof
    | PermissionDenied
    | NotFound
    | Panicked

  datatype Option<+T> = None | Some(value: T)

  datatype Result<+T> = Ok(value: T) | Err(error: Error) {
    predicate IsFailure() {
      Err?
    }

    function PropagateFailure<U>(): Result<U>
      requires Err?
    {
      Err(error)
    }

    function Extract(): T
      requires Ok?
    {
      value
    }
  }

  /** A callback that carries its own state through a sequence, and may stop it with an error. */
  function Fold<S, A>(s: seq<S>, a: A, f: (A, S) -> Option<A>): Option<A> {
    if s == [] then Some(a) else
      match f(a, s[0])
      case None => None
      case Some(b) => Fold(s[1..], b, f)
  }

  /** The states a callback passes through as long as it accepts what it is shown. */
  ghost predicate Accepted<S, A>(s: seq<S>, states: seq<A>, f: (A, S) -> Option<A>) {
    && 0 < |states| <= |s| + 1
    && forall t: nat {:trigger s[t]} :: t + 1 < |states| ==> f(states[t], s[t]) == Some(states[t + 1])
  }

  /** The callback accepts some of the items, in order, and refuses the one after them. */
  ghost predicate Refused<S, A(!new)>(s: seq<S>, a: A, f: (A, S) -> Option<A>) {
    exists states: seq<A> :: Accepted(s, states, f) && states[0] == a
      && |states| <= |s| && f(states[|states| - 1], s[|states| - 1]) == None
  }

  /** A callback that accepts everything ends in its last state; one that refuses an item ends there. */
  lemma {:induction false} FoldAccepted<S, A>(s: seq<S>, states: seq<A>, f: (A, S) -> Option<A>)
    requires Accepted(s, states, f)
    ensures |states| == |s| + 1 ==> Fold(s, states[0], f) == Some(states[|s|])
    ensures |states| <= |s| && f(states[|states| - 1], s[|states| - 1]) == None ==> Fold(s, states[0], f) == None
    decreases |states|
  {
    if |states| > 1 {
      assert f(states[0], s[0]) == Some(states[1]);
      forall t: nat | t + 1 < |states[1..]|
        ensures f(states[1..][t], s[1..][t]) == Some(states[1..][t + 1])
      {
        assert f(states[t + 1], s[t + 1]) == Some(states[t + 2]);
      }
      FoldAccepted(s[1..], states[1..], f);
    }
  }

  /** There is no result exactly if some item is refused. */
  lemma FoldRefused<S, A(!new)>(s: seq<S>, a: A, f: (A, S) -> Option<A>)
    ensures Fold(s, a, f) == None <==> Refused(s, a, f)
  {
    hide Fold;
    if Refused(s, a, f) {
      var states :| Accepted(s, states, f) && states[0] == a
        && |states| <= |s| && f(states[|states| - 1], s[|states| - 1]) == None;
      FoldAccepted(s, states, f);
    }
    if Fold(s, a, f) == None {
      var states := Refusal(s, a, f);
    }
  }

  /** The states up to the item that is refused. */
  lemma {:induction false} Refusal<S, A>(s: seq<S>, a: A, f: (A, S) -> Option<A>) returns (states: seq<A>)
    requires Fold(s, a, f) == None
    ensures Accepted(s, states, f) && states[0] == a
    ensures |states| <= |s| && f(states[|states| - 1], s[|states| - 1]) == None
    decreases |s|
  {
    if f(a, s[0]) == None {
      states := [a];
    } else {
      var rest := Refusal(s[1..], f(a, s[0]).value, f);
      states := [a] + rest;
      forall t: nat | t + 1 < |states|
        ensures f(states[t], s[t]) == Some(states[t + 1])
      {
        if t > 0 {
          assert f(rest[t - 1], s[1..][t - 1]) == Some(rest[t]);
        }
      }
    }
  }
}
