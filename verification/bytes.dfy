/** Byte strings, and the byte-wise order that `memcmp` plus a length comparison gives them. */
module Bytes {
  type byte = b: int | 0 <= b < 256

  type Bytes = seq<byte>

  function Min(a: nat, b: nat): nat {
    if a < b then a else b
  }

  function Max(a: nat, b: nat): nat {
    if a < b then b else a
  }

  function Pow2(n: nat): nat {
    if n == 0 then 1 else 2 * Pow2(n - 1)
  }

  /** The C library's `memcmp` on the first `n` bytes: its sign is that of the first difference. */
  function Memcmp(a: Bytes, b: Bytes, n: nat): int
    requires n <= |a| && n <= |b|
  {
    if n == 0 then 0
    else if a[0] != b[0] then a[0] - b[0]
    else Memcmp(a[1..], b[1..], n - 1)
  }

  /** `memcmp` over the common length, ties broken by length. */
  predicate NameLess(a: Bytes, b: Bytes) {
    var rv := Memcmp(a, b, Min(|a|, |b|));
    if rv != 0 then rv < 0 else |a| < |b|
  }

  /** The dictionary order, written independently of `Memcmp`. */
  predicate Lex(a: Bytes, b: Bytes) {
    b != [] && (a == [] || a[0] < b[0] || (a[0] == b[0] && Lex(a[1..], b[1..])))
  }

  lemma {:induction false} NameLessIsLex(a: Bytes, b: Bytes)
    ensures NameLess(a, b) == Lex(a, b)
  {
    if a != [] && b != [] && a[0] == b[0] {
      NameLessIsLex(a[1..], b[1..]);
    }
  }

  /** The dictionary order in terms of the common front: one string ends where the other goes on, or the
      first difference decides. */
  lemma {:induction false} LexByFront(a: Bytes, b: Bytes)
    ensures Lex(a, b) <==>
      exists n: nat :: n <= |a| && n < |b| && a[..n] == b[..n] && (n == |a| || a[n] < b[n])
  {
    if a == [] || b == [] || a[0] != b[0] {
      if Lex(a, b) {
        assert a[..0] == b[..0];
      }
      assert forall n: nat :: 0 < n <= |a| && n <= |b| ==> a[..n][0] == a[0] && b[..n][0] == b[0];
    } else {
      LexByFront(a[1..], b[1..]);
      assert forall n: nat :: 0 < n <= |a| && n <= |b| ==> a[..n] == [a[0]] + a[1..][..n - 1];
      assert forall n: nat :: 0 < n <= |a| && n <= |b| ==> b[..n] == [b[0]] + b[1..][..n - 1];
      assert forall n: nat :: n < |a| && n < |b| ==> a[1..][..n] == a[..n + 1][1..] && b[1..][..n] == b[..n + 1][1..];
    }
  }

  lemma {:induction false} LexTotal(a: Bytes, b: Bytes)
    ensures !Lex(a, a)
    ensures !(Lex(a, b) && Lex(b, a))
    ensures a == b || Lex(a, b) || Lex(b, a)
  {
    if a != [] {
      LexTotal(a[1..], a[1..]);
      if b != [] && a[0] == b[0] {
        LexTotal(a[1..], b[1..]);
        assert a == [a[0]] + a[1..] && b == [b[0]] + b[1..];
      }
    }
  }

  lemma {:induction false} LexTransitive(a: Bytes, b: Bytes, c: Bytes)
    requires Lex(a, b) && Lex(b, c)
    ensures Lex(a, c)
  {
    if a != [] && a[0] == b[0] && b[0] == c[0] {
      LexTransitive(a[1..], b[1..], c[1..]);
    }
  }
}
