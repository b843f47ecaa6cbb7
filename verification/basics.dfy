/** Failure-carrying datatypes and the fixed-width integer ranges the editor
    uses (byte, ushort). */
module Basics {

  /** A value that may be absent; stands for a nullable reference. */
  datatype Option<+T> = None | Some(value: T)

  /** The outcome of an operation that can abort with an exception.
      Usable with `:-`. */
  datatype Result<+T, +E> = Success(value: T) | Failure(error: E) {

    predicate IsFailure() {
      Failure?
    }

    function PropagateFailure<U>(): Result<U, E>
      requires Failure?
    {
      Failure(error)
    }

    function Extract(): T
      requires Success?
    {
      value
    }
  }

  type byte = x: int | 0 <= x < 0x100

  type u16 = x: int | 0 <= x < 0x1_0000

  /** `lines` holds two lines per item of `xs`, in order, the pair for each
      item satisfying P. */
  predicate InPairs<T>(xs: seq<T>, lines: seq<string>, P: (T, string, string) -> bool)
    decreases |xs|
  {
    if |xs| == 0 then lines == []
    else |lines| >= 2 && P(xs[0], lines[0], lines[1]) && InPairs(xs[1..], lines[2..], P)
  }

  /** The first k + 1 items without the first are the first k of the
      tail. */
  lemma TakeTail<T>(s: seq<T>, k: nat)
    requires k < |s|
    ensures s[..k + 1][1..] == s[1..][..k]
  {
  }

  /** One more item in front, with its pair in front of the lines. */
  lemma InPairsCons<T>(xs: seq<T>, head: seq<string>, lines: seq<string>, P: (T, string, string) -> bool)
    requires |xs| > 0 && |head| == 2 && P(xs[0], head[0], head[1])
    requires InPairs(xs[1..], lines, P)
    ensures InPairs(xs, head + lines, P)
  {
    assert (head + lines)[2..] == lines;
  }

  /** The pair of the i-th item sits at 2i and 2i + 1. */
  lemma {:induction false} InPairsAt<T>(xs: seq<T>, lines: seq<string>, P: (T, string, string) -> bool, i: nat)
    requires InPairs(xs, lines, P) && i < |xs|
    ensures 2 * i + 1 < |lines| && P(xs[i], lines[2 * i], lines[2 * i + 1])
    decreases i
  {
    if i > 0 {
      InPairsAt(xs[1..], lines[2..], P, i - 1);
      var j := 2 * (i - 1);
      assert 2 * i == j + 2;
      assert lines[2..][j] == lines[j + 2] && lines[2..][j + 1] == lines[j + 3];
      assert xs[1..][i - 1] == xs[i];
    }
  }

  /** Twice as many lines as items. */
  lemma {:induction false} InPairsLength<T>(xs: seq<T>, lines: seq<string>, P: (T, string, string) -> bool)
    requires InPairs(xs, lines, P)
    ensures |lines| == 2 * |xs|
    decreases |xs|
  {
    if |xs| > 0 {
      InPairsLength(xs[1..], lines[2..], P);
    }
  }
}
