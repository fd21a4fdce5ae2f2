/** Go's fixed-width integer kinds as the increment/decrement family sees them.
    Every conversion between kinds and every addition or subtraction keeps only
    the low bits of the exact result (two's complement for the signed kinds);
    `Wrap` is that reduction, written on unbounded integers. */
module Numeric {

  /** The integer kinds a stored payload can have. `int`, `uint` and `uintptr`
      are taken to be 64 bits wide. */
  datatype IntKind = Int | Int8 | Int16 | Int32 | Int64 | Uint | Uint8 | Uint16 | Uint32 | Uint64 | Uintptr

  /** 2^width of the kind. */
  function Modulus(kind: IntKind): (m: int)
    ensures m >= 0x100
  {
    match kind
    case Int8 | Uint8 => 0x100
    case Int16 | Uint16 => 0x1_0000
    case Int32 | Uint32 => 0x1_0000_0000
    case _ => 0x1_0000_0000_0000_0000
  }

  predicate Signed(kind: IntKind) {
    kind.Int? || kind.Int8? || kind.Int16? || kind.Int32? || kind.Int64?
  }

  /** The smallest value of the kind: -2^(width-1) when signed, 0 otherwise. */
  function MinValue(kind: IntKind): int {
    if Signed(kind) then -(Modulus(kind) / 2) else 0
  }

  predicate InRange(kind: IntKind, x: int) {
    MinValue(kind) <= x < MinValue(kind) + Modulus(kind)
  }

  /** The value of the kind whose bit pattern is the low bits of `x`: what Go's
      conversion `int8(x)`, `uint(x)`, ... and its wrapping `+`/`-` produce. */
  function Wrap(kind: IntKind, x: int): (r: int)
    ensures InRange(kind, r)
    ensures InRange(kind, x) ==> r == x
    ensures (x - r) % Modulus(kind) == 0
  {
    MinValue(kind) + (x - MinValue(kind)) % Modulus(kind)
  }

  // Adding a multiple of a literal modulus leaves the remainder alone; with the
  // modulus written out the arithmetic is linear.
  lemma ModShift8(y: int, q: int) ensures (y + q * 0x100) % 0x100 == y % 0x100 {}
  lemma ModShift16(y: int, q: int) ensures (y + q * 0x1_0000) % 0x1_0000 == y % 0x1_0000 {}
  lemma ModShift32(y: int, q: int) ensures (y + q * 0x1_0000_0000) % 0x1_0000_0000 == y % 0x1_0000_0000 {}
  lemma ModShift64(y: int, q: int)
    ensures (y + q * 0x1_0000_0000_0000_0000) % 0x1_0000_0000_0000_0000 == y % 0x1_0000_0000_0000_0000
  {}

  lemma ModShift(y: int, q: int, m: int)
    requires m == 0x100 || m == 0x1_0000 || m == 0x1_0000_0000 || m == 0x1_0000_0000_0000_0000
    ensures (y + q * m) % m == y % m
  {
    if m == 0x100 {
      ModShift8(y, q);
    } else if m == 0x1_0000 {
      ModShift16(y, q);
    } else if m == 0x1_0000_0000 {
      ModShift32(y, q);
    } else {
      ModShift64(y, q);
    }
  }

  /** Wrap depends only on its argument modulo 2^width. */
  lemma {:induction false} WrapShift(kind: IntKind, x: int, q: int)
    ensures Wrap(kind, x + q * Modulus(kind)) == Wrap(kind, x)
  {
    var m, lo := Modulus(kind), MinValue(kind);
    ModShift(x - lo, q, m);
    assert x + q * m - lo == (x - lo) + q * m;
  }

  /** Wrap is the identity plus a multiple of 2^width. */
  lemma WrapOffset(kind: IntKind, x: int) returns (q: int)
    ensures Wrap(kind, x) == x + q * Modulus(kind)
  {
    q := -((x - MinValue(kind)) / Modulus(kind));
  }

  /** Wrapping an operand first does not change a wrapped sum. */
  lemma {:induction false} WrapSum(kind: IntKind, a: int, b: int)
    ensures Wrap(kind, Wrap(kind, a) + b) == Wrap(kind, a + b)
  {
    var q := WrapOffset(kind, a);
    WrapShift(kind, a + b, q);
  }

  /** Narrowing the delta before adding (Go's `value + int8(n)`) gives what
      adding the full delta and then narrowing would. */
  lemma {:induction false} NarrowedAdd(kind: IntKind, a: int, n: int)
    ensures Wrap(kind, a + Wrap(kind, n)) == Wrap(kind, a + n)
  {
    WrapSum(kind, n, a);
  }

  /** The same for subtraction (Go's `value - int8(n)`). */
  lemma {:induction false} NarrowedSub(kind: IntKind, a: int, n: int)
    ensures Wrap(kind, a - Wrap(kind, n)) == Wrap(kind, a - n)
  {
    var q := WrapOffset(kind, n);
    WrapShift(kind, a - n, -q);
  }

  /** Subtracting a delta undoes adding it, for every in-range value. */
  lemma {:induction false} AddThenSub(kind: IntKind, a: int, n: int)
    requires InRange(kind, a)
    ensures Wrap(kind, Wrap(kind, a + n) - n) == a
  {
    WrapSum(kind, a + n, -n);
  }

  /** Adding a delta undoes subtracting it, for every in-range value. */
  lemma {:induction false} SubThenAdd(kind: IntKind, a: int, n: int)
    requires InRange(kind, a)
    ensures Wrap(kind, Wrap(kind, a - n) + n) == a
  {
    WrapSum(kind, a - n, n);
  }
}
