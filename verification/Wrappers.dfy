/** The failure-compatible result types shared by every module. */
module Wrappers {

  /** A value that may be absent: Rust's `Option`, and `Result` where the error text is not modelled. */
  datatype Option<+T> = None | Some(value: T) {

    predicate IsFailure() {
      None?
    }

    function PropagateFailure<U>(): Option<U>
      requires None?
    {
      None
    }

    function Extract(): T
      requires Some?
    {
      value
    }
  }

  /** An octet. */
  type byte = x: int | 0 <= x < 256

  /** A 16-bit unsigned integer. */
  type u16 = x: int | 0 <= x < 0x1_0000

  /** An IPv4 address as its four octets. */
  datatype Ipv4 = Ipv4(a: byte, b: byte, c: byte, d: byte)

  lemma Assoc<T>(a: seq<T>, b: seq<T>, c: seq<T>)
    ensures a + b + c == a + (b + c)
  {
  }

  lemma {:induction false} SubsetSize<T>(a: set<T>, b: set<T>)
    requires a <= b
    ensures |a| <= |b|
  {
    if a != {} {
      var x :| x in a;
      SubsetSize(a - {x}, b - {x});
    }
  }

  lemma MonotoneProduct(x: int, y: int, total: nat)
    requires x <= y
    ensures x * total <= y * total
  {
  }

  lemma UniqueQuotient(q: int, r: nat, q': int, r': nat, total: nat)
    requires r < total && r' < total && q * total + r == q' * total + r'
    ensures q == q' && r == r'
  {
    if q < q' {
      MonotoneProduct(q + 1, q', total);
    } else if q' < q {
      MonotoneProduct(q' + 1, q, total);
    }
  }

  /** One round less leaves the same remainder. */
  lemma OneRoundLess(k: int, total: nat)
    requires 0 < total <= k
    ensures (k - total) % total == k % total
  {
    var q, r := (k - total) / total, (k - total) % total;
    assert (q + 1) * total == q * total + total;
    UniqueQuotient(q + 1, r, k / total, k % total, total);
  }
}
