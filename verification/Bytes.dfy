/** Bytes, byte strings and the buffer primitives the C code uses everywhere. */
module Bytes {

  datatype Option<+T> = None | Some(value: T)

  /** The value, or `default` if there is none. */
  function Or<T>(o: Option<T>, default: T): T { if o.Some? then o.value else default }

  type byte = n: int | 0 <= n < 256

  type Bytes = seq<byte>

  /** The C cast `(uint8_t) n` of a non-negative number. */
  function Low(n: nat): byte { n % 256 }

  /** `s` with the bytes of `src` written over it from index `at` on: the effect of a memcpy. */
  function Splice<T>(s: seq<T>, at: nat, src: seq<T>): (r: seq<T>)
    requires at + |src| <= |s|
    ensures |r| == |s|
    ensures r[at..at + |src|] == src
    ensures forall k :: 0 <= k < at ==> r[k] == s[k]
    ensures forall k :: at + |src| <= k < |s| ==> r[k] == s[k]
  {
    s[..at] + src + s[at + |src|..]
  }

  /** The first `n` elements, or all if there are not so many. */
  function Take<T>(s: seq<T>, n: nat): (r: seq<T>)
    ensures |s| <= n ==> r == s
  {
    if |s| <= n then s else s[..n]
  }

  lemma TakeConcat<T>(a: seq<T>, b: seq<T>, n: nat)
    ensures Take(a + b, n) == if n < |a| then Take(a, n) else a + Take(b, n - |a|)
  {
  }

  /** Writing inside a region just written is writing the changed region. */
  lemma SpliceInside<T>(s: seq<T>, at: nat, y: seq<T>, i: nat, z: seq<T>)
    requires at + |y| <= |s| && i + |z| <= |y|
    ensures Splice(Splice(s, at, y), at + i, z) == Splice(s, at, Splice(y, i, z))
  {
  }

  /** Writing over the end of a region just written. */
  lemma SpliceOverEnd<T>(s: seq<T>, at: nat, y: seq<T>, z: seq<T>)
    requires at + |y| <= |s| && |z| <= |y|
    ensures Splice(Splice(s, at, y), at + (|y| - |z|), z) == Splice(s, at, y[..|y| - |z|] + z)
  {
  }

  /** memcpy of a byte string into a buffer. */
  method CopyInto<T>(dst: array<T>, at: nat, src: seq<T>)
    requires at + |src| <= dst.Length
    modifies dst
    ensures dst[..] == Splice(old(dst[..]), at, src)
  {
    for i := 0 to |src|
      invariant dst[..] == Splice(old(dst[..]), at, src[..i])
    {
      dst[at + i] := src[i];
      assert src[..i + 1] == src[..i] + [src[i]];
    }
    assert src[..|src|] == src;
  }

  lemma Regrouped<T>(a: seq<T>, b: seq<T>, c: seq<T>)
    ensures a + (b + c) == a + b + c
  {
  }

  /** The concatenation of a list of byte strings. */
  function Concat<T>(parts: seq<seq<T>>): seq<T> {
    if parts == [] then [] else parts[0] + Concat(parts[1..])
  }

  lemma {:induction false} ConcatAppend<T>(a: seq<seq<T>>, b: seq<seq<T>>)
    ensures Concat(a + b) == Concat(a) + Concat(b)
  {
    if a == [] {
      assert a + b == b;
    } else {
      ConcatAppend(a[1..], b);
      assert (a + b)[1..] == a[1..] + b && (a + b)[0] == a[0];
      Regrouped(a[0], Concat(a[1..]), Concat(b));
    }
  }
}
