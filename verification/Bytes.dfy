/** Go byte strings, and the modular-arithmetic facts the circular buffer relies on. */
module Bytes {

  newtype byte = x: int | 0 <= x < 256

  type Str = seq<byte>

  const NL: byte := 10

  datatype Option<+T> = None | Some(value: T)

  function Concat(pieces: seq<Str>): Str {
    if pieces == [] then [] else Concat(pieces[..|pieces| - 1]) + pieces[|pieces| - 1]
  }

  /** `strings.Contains`: the needle occurs somewhere in the text. */
  ghost predicate Contains(text: Str, needle: Str) {
    exists i :: 0 <= i <= |text| && needle <= text[i..]
  }

  /** A text that extends `text` on the right still contains everything `text` contains. */
  lemma ContainsGrows(text: Str, longer: Str, needle: Str)
    requires text <= longer && Contains(text, needle)
    ensures Contains(longer, needle)
  {
    var i :| 0 <= i <= |text| && needle <= text[i..];
    assert needle <= longer[i..];
  }
}

module Modular {

  /** Quotient and remainder are unique. */
  lemma ModUnique(a: int, q: int, r: int, n: int)
    requires 0 <= r < n && a == q * n + r
    ensures a % n == r
  {
    var d := a / n - q;
    assert a == (a / n) * n + a % n;
    assert (a / n) * n - q * n == d * n;
    assert d * n == r - a % n;
    if d >= 1 {
      MulMono(1, d, n);
    } else if d <= -1 {
      MulMono(d, -1, n);
    }
  }

  lemma MulMono(a: int, b: int, n: int)
    requires a <= b && 0 <= n
    ensures a * n <= b * n
  {}

  /** Adding after reducing is adding. */
  lemma ModAdd(a: int, b: int, n: int)
    requires 0 < n
    ensures (a % n + b) % n == (a + b) % n
  {
    var q, t := a / n, (a % n + b) / n;
    var r := (a % n + b) % n;
    assert a + b == q * n + (a % n + b) == q * n + t * n + r;
    assert q * n + t * n == (q + t) * n;
    ModUnique(a + b, q + t, r, n);
  }

  /** Adding a multiple of the modulus twice changes nothing. */
  lemma ModAddTwice(a: int, n: int)
    requires 0 < n
    ensures (a + n * 2) % n == a % n
  {
    assert a + n * 2 == (a / n + 2) * n + a % n;
    ModUnique(a + n * 2, a / n + 2, a % n, n);
  }

  /** Positions less than one lap apart fall into different slots. */
  lemma ModDistinct(a: int, b: int, n: int)
    requires a < b < a + n
    ensures a % n != b % n
  {
    if a % n == b % n {
      var d := b / n - a / n;
      assert b - a == (b / n) * n - (a / n) * n == d * n;
      if d >= 1 {
        MulMono(1, d, n);
      } else {
        MulMono(d, 0, n);
      }
      assert false;
    }
  }

  /** The slot of the `i`-th byte of a read that starts `back` bytes behind the head of a buffer of `n` slots:
      the computed start index is in range and leads to the slot the byte was written to. */
  lemma ReadSlot(written: nat, back: nat, i: nat, n: nat)
    requires 0 < n && back <= n && back <= written
    ensures 0 <= written % n - back + n * 2
    ensures ((written % n - back + n * 2) % n + i) % n == (written - back + i) % n
  {
    ModAddTwice(written % n - back, n);
    ModAdd(written, 0 - back as int, n);
    ModAdd(written - back, i, n);
  }
}

module Sets {

  lemma SubsetSize<T>(a: set<T>, b: set<T>)
    requires a <= b
    ensures |a| <= |b|
  {
    if a != {} {
      var x :| x in a;
      SubsetSize(a - {x}, b - {x});
    }
  }

  /** Taking keys out of a map does not make it larger. */
  lemma Shrinks<K, V>(m: map<K, V>, ks: set<K>)
    ensures |m - ks| <= |m|
  {
    SubsetSize((m - ks).Keys, m.Keys);
  }
}
