/**
 * Byte-sized integer types shared by the three bus drivers, and the scripted
 * input streams that stand in for what the hardware sends back.
 *
 * A script is a finite sequence of values the peripheral returns, one per
 * access. Once it is used up the peripheral returns a default, which for the
 * SPI and I2C buses is 0, the constant the stubbed transfer routines return.
 */
module Bytes {

  type uint8 = x: int | 0 <= x < 0x100
  type uint16 = x: int | 0 <= x < 0x1_0000

  datatype Option<T> = None | Some(value: T)

  /** The value returned by the `i`-th access to a script; `dflt` once it is exhausted. */
  function At<T>(script: seq<T>, i: nat, dflt: T): (v: T)
    ensures i < |script| ==> v == script[i]
    ensures |script| <= i ==> v == dflt
  {
    if i < |script| then script[i] else dflt
  }

  /** The script left after `k` accesses. */
  function Drop<T>(script: seq<T>, k: nat): (rest: seq<T>)
    ensures |rest| == if k <= |script| then |script| - k else 0
    ensures forall i :: 0 <= i < |rest| ==> rest[i] == script[k + i]
  {
    if k <= |script| then script[k..] else []
  }

  /** The first `n` values a script delivers, exhausted accesses reading `dflt`. */
  function Take<T>(script: seq<T>, n: nat, dflt: T): (vs: seq<T>)
    ensures |vs| == n
    ensures forall i :: 0 <= i < n ==> vs[i] == At(script, i, dflt)
  {
    seq(n, i requires 0 <= i < n => At(script, i, dflt))
  }

  /** Accesses compose: `j` accesses followed by `k` more consume `j + k`. */
  lemma DropDrop<T>(script: seq<T>, j: nat, k: nat)
    ensures Drop(Drop(script, j), k) == Drop(script, j + k)
  {
  }

  /** The `i`-th access after `k` accesses is the `(k + i)`-th access. */
  lemma AtDrop<T>(script: seq<T>, k: nat, i: nat, dflt: T)
    ensures At(Drop(script, k), i, dflt) == At(script, k + i, dflt)
  {
  }

  /** A log that will end as `before + (a + b)`, once `a` is logged, ends with `b` still to come. */
  lemma Regroup<T>(whole: seq<T>, before: seq<T>, after: seq<T>, a: seq<T>, b: seq<T>)
    requires whole == before + (a + b) && after == before + a
    ensures whole == after + b
  {
  }
}
