/** The Python exceptions the bot can raise while it builds an answer, and
    the outcome of calls made one after another, as in the loop of
    `inline_query` (bot.py) that builds one result per candidate: the first
    exception raised propagates and stops the rest. */
module Exceptions {

  /** The Python exceptions the code can raise on a malformed response. */
  datatype PyError = TypeError | KeyError(key: string)

  /** A value returned normally, or the exception raised instead. */
  datatype Raising<T> = Returned(value: T) | Raised(error: PyError)

  /** The outcomes of several calls made one after another: all their values,
      or the first exception, which stops the rest. */
  function Sequenced<T>(outcomes: seq<Raising<T>>): Raising<seq<T>> {
    if outcomes == [] then Returned([])
    else
      match outcomes[0]
      case Raised(e) => Raised(e)
      case Returned(v) =>
        match Sequenced(outcomes[1..])
        case Raised(e) => Raised(e)
        case Returned(vs) => Returned([v] + vs)
  }

  /** Sequencing succeeds exactly when every call does, and then yields each
      call's value in order. */
  lemma {:induction false} SequencedReturned<T>(outcomes: seq<Raising<T>>)
    ensures Sequenced(outcomes).Returned? <==> forall i :: 0 <= i < |outcomes| ==> outcomes[i].Returned?
    ensures Sequenced(outcomes).Returned? ==>
      |Sequenced(outcomes).value| == |outcomes| &&
      forall i :: 0 <= i < |outcomes| ==> Sequenced(outcomes).value[i] == outcomes[i].value
  {
    if outcomes != [] {
      SequencedReturned(outcomes[1..]);
      assert forall i :: 1 <= i < |outcomes| ==> outcomes[i] == outcomes[1..][i - 1];
    }
  }

  /** Sequencing raises the exception of the first call that raises. */
  lemma {:induction false} SequencedRaised<T>(outcomes: seq<Raising<T>>, i: nat)
    requires i < |outcomes| && outcomes[i].Raised?
    requires forall k :: 0 <= k < i ==> outcomes[k].Returned?
    ensures Sequenced(outcomes) == Raised(outcomes[i].error)
  {
    if i > 0 {
      SequencedRaised(outcomes[1..], i - 1);
    }
  }
}
