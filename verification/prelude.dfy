/** Basic vocabulary shared by every component of the watermarking pipeline:
    bytes, bits, optional values, C-style integer arithmetic and fail-fast
    initialisation sequences. */
module Prelude {

  /** One byte of a pixel buffer or of a cursor shape buffer. */
  type byte = bv8

  /** The conventional Some/None datatype, standing in for a nullable pointer. */
  datatype Option<+T> = None | Some(value: T)

  /** Bit `k` of `b`, counted from the least significant bit: `(b >> k) & 1`. */
  function Bit(b: byte, k: nat): bool
    requires k < 8
  {
    (b >> k) & 1 == 1
  }

  /** A buffer of `n` zero bytes (`std::vector<BYTE>(n)`, or `std::fill(..., 0)`). */
  function Zeros(n: nat): (r: seq<byte>)
    ensures |r| == n
    ensures forall i :: 0 <= i < n ==> r[i] == 0
  {
    seq(n, _ => 0)
  }

  /** `std::vector::resize(n)`: keeps the common prefix, zero-fills any new tail. */
  function Resize(s: seq<byte>, n: nat): (r: seq<byte>)
    ensures |r| == n
    ensures forall i :: 0 <= i < n && i < |s| ==> r[i] == s[i]
    ensures forall i :: |s| <= i < n ==> r[i] == 0
  {
    if n <= |s| then s[..n] else s + Zeros(n - |s|)
  }

  function Abs(x: int): nat
  {
    if x < 0 then -x else x
  }

  /** C/C++ integer division, which truncates toward zero (Dafny's `/` is Euclidean). */
  function CDiv(a: int, b: int): int
    requires b != 0
  {
    var m := Abs(a) / Abs(b);
    if (a < 0) == (b < 0) then m else -m
  }

  /** Runs `order` stage by stage and stops at the first stage `ok` rejects,
      as `if (!Step()) return false;` chains do. The result lists the stages that
      were attempted, the failing one (if any) last. */
  function FailFast<S>(order: seq<S>, ok: S -> bool): (ran: seq<S>)
    ensures |ran| <= |order| && ran == order[..|ran|]
    ensures forall i :: 0 <= i < |ran| - 1 ==> ok(ran[i])
    ensures |ran| < |order| ==> |ran| > 0 && !ok(ran[|ran| - 1])
  {
    if |order| == 0 then []
    else if !ok(order[0]) then [order[0]]
    else [order[0]] + FailFast(order[1..], ok)
  }

  /** The pipeline of stages succeeded: every stage was attempted and none failed. */
  predicate AllSucceeded<S>(order: seq<S>, ok: S -> bool)
  {
    forall i :: 0 <= i < |order| ==> ok(order[i])
  }

  /** A fail-fast sequence attempts every stage and succeeds exactly when no
      stage fails; when one fails, it is the first failure and nothing after it runs. */
  lemma {:induction false} FailFastFirstFailure<S>(order: seq<S>, ok: S -> bool)
    ensures var ran := FailFast(order, ok);
      (AllSucceeded(order, ok) <==> ran == order && (|order| == 0 || ok(order[|order| - 1])))
    ensures var ran := FailFast(order, ok);
      forall j :: 0 <= j < |order| && !ok(order[j]) ==> |ran| <= j + 1
  {
    if |order| > 0 && ok(order[0]) {
      FailFastFirstFailure(order[1..], ok);
      var rest := FailFast(order[1..], ok);
      assert FailFast(order, ok) == [order[0]] + rest;
      forall j | 0 <= j < |order| && !ok(order[j])
        ensures |FailFast(order, ok)| <= j + 1
      {
        assert j > 0;
        assert order[1..][j - 1] == order[j];
      }
      if AllSucceeded(order, ok) {
        assert AllSucceeded(order[1..], ok) by {
          forall i | 0 <= i < |order[1..]| ensures ok(order[1..][i]) {
            assert order[1..][i] == order[i + 1];
          }
        }
      }
      if rest == order[1..] && (|order[1..]| == 0 || ok(order[1..][|order[1..]| - 1])) {
        assert AllSucceeded(order[1..], ok);
        forall i | 0 <= i < |order| ensures ok(order[i]) {
          if i > 0 { assert order[i] == order[1..][i - 1]; }
        }
      }
    }
  }

  /** The number of stages of `order` that succeed before the first failure. */
  function FirstFailure<S>(order: seq<S>, ok: S -> bool): (n: nat)
    ensures n <= |order|
    ensures forall i :: 0 <= i < n ==> ok(order[i])
    ensures n < |order| ==> !ok(order[n])
  {
    if |order| == 0 || !ok(order[0]) then 0 else 1 + FirstFailure(order[1..], ok)
  }

  /** The fail-fast run attempts the stages up to and including the first failure:
      all of them exactly when every stage succeeds. */
  lemma {:induction false} FirstFailureOfFailFast<S>(order: seq<S>, ok: S -> bool)
    ensures FirstFailure(order, ok) == |order| <==> AllSucceeded(order, ok)
    ensures |FailFast(order, ok)| == if FirstFailure(order, ok) < |order| then FirstFailure(order, ok) + 1 else |order|
  {
    if |order| > 0 && ok(order[0]) {
      FirstFailureOfFailFast(order[1..], ok);
      if AllSucceeded(order[1..], ok) {
        forall i | 0 <= i < |order| ensures ok(order[i]) {
          if i > 0 { assert order[i] == order[1..][i - 1]; }
        }
      }
      if AllSucceeded(order, ok) {
        forall i | 0 <= i < |order[1..]| ensures ok(order[1..][i]) {
          assert order[1..][i] == order[i + 1];
        }
      }
    }
  }

  /** Taking one more element of `b` after `a` appends that element. */
  lemma PrefixStep<T>(a: seq<T>, b: seq<T>, j: nat)
    requires j < |b|
    ensures a + b[..j + 1] == (a + b[..j]) + [b[j]]
    ensures a + b[..0] == a
  {
    assert b[..j + 1] == b[..j] + [b[j]];
  }
}
