/** Running a state machine over a string of inputs. */
module Automata {
  /** The state after `inputs`. */
  function Run<S, B>(next: (S, B) -> S, s: S, inputs: seq<B>): S
    decreases |inputs|
  {
    if inputs == [] then s else Run(next, next(s, inputs[0]), inputs[1..])
  }

  /** What every step keeps, as a relation between the state and the inputs so far, a run keeps. */
  lemma {:induction false} RunKeeps<S(!new), B(!new)>(next: (S, B) -> S, inv: (S, seq<B>) -> bool, s: S,
      past: seq<B>, inputs: seq<B>)
    requires inv(s, past) && forall s, past, b :: inv(s, past) ==> inv(next(s, b), past + [b])
    ensures inv(Run(next, s, inputs), past + inputs)
    decreases |inputs|
  {
    if inputs == [] {
      assert past + inputs == past;
    } else {
      RunKeeps(next, inv, next(s, inputs[0]), past + [inputs[0]], inputs[1..]);
      assert past + [inputs[0]] + inputs[1..] == past + inputs;
    }
  }

  /** Everything put out on the way. */
  function Output<S, B, O>(next: (S, B) -> S, emit: (S, B) -> seq<O>, s: S, inputs: seq<B>): seq<O>
    decreases |inputs|
  {
    if inputs == [] then [] else emit(s, inputs[0]) + Output(next, emit, next(s, inputs[0]), inputs[1..])
  }

  lemma {:induction false} RunConcat<S, B>(next: (S, B) -> S, s: S, a: seq<B>, b: seq<B>)
    ensures Run(next, s, a + b) == Run(next, Run(next, s, a), b)
    decreases |a|
  {
    if a == [] {
      assert a + b == b;
    } else {
      RunConcat(next, next(s, a[0]), a[1..], b);
      assert (a + b)[1..] == a[1..] + b;
    }
  }

  lemma {:induction false} OutputConcat<S, B, O>(next: (S, B) -> S, emit: (S, B) -> seq<O>, s: S, a: seq<B>, b: seq<B>)
    ensures Output(next, emit, s, a + b) == Output(next, emit, s, a) + Output(next, emit, Run(next, s, a), b)
    decreases |a|
  {
    if a == [] {
      assert a + b == b;
    } else {
      OutputConcat(next, emit, next(s, a[0]), a[1..], b);
      assert (a + b)[1..] == a[1..] + b;
    }
  }

  lemma RunOne<S, B, O>(next: (S, B) -> S, emit: (S, B) -> seq<O>, s: S, x: B)
    ensures Run(next, s, [x]) == next(s, x) && Output(next, emit, s, [x]) == emit(s, x)
  {
    assert [x][1..] == [];
  }

  function Joined<O>(chunks: seq<seq<O>>): seq<O> {
    if chunks == [] then [] else chunks[0] + Joined(chunks[1..])
  }

  /** Chunk by chunk along another list. */
  function Mapped<T, O>(g: T -> O, xs: seq<T>): (r: seq<O>)
    ensures |r| == |xs|
  {
    seq(|xs|, i requires 0 <= i < |xs| => g(xs[i]))
  }

  lemma MappedSame<T, U, O>(f: T -> O, xs: seq<T>, g: U -> O, ys: seq<U>)
    requires |xs| == |ys| && forall i :: 0 <= i < |xs| ==> f(xs[i]) == g(ys[i])
    ensures Mapped(f, xs) == Mapped(g, ys)
  {
  }

  lemma JoinedStep<T, O>(g: T -> seq<O>, xs: seq<T>)
    requires xs != []
    ensures Joined(Mapped(g, xs)) == g(xs[0]) + Joined(Mapped(g, xs[1..]))
  {
    assert Mapped(g, xs)[1..] == Mapped(g, xs[1..]);
  }

  lemma {:induction false} JoinedSnoc<O>(chunks: seq<seq<O>>, last: seq<O>)
    ensures Joined(chunks + [last]) == Joined(chunks) + last
    decreases |chunks|
  {
    if chunks == [] {
      assert [last][1..] == [];
    } else {
      JoinedSnoc(chunks[1..], last);
      assert (chunks + [last])[1..] == chunks[1..] + [last];
    }
  }
}
