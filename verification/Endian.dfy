/** `endian`: integers written to and read from byte buffers in little and big endian order. */
module Endian {
  import opened Wrappers
  import opened RingArithmetic

  type Byte = x: int | 0 <= x < 256

  /** An integer type: its `sizeof` and its signedness. */
  datatype Kind = Kind(width: nat, signed: bool)

  datatype Error = OutOfRange

  // ---- Machine arithmetic on unsigned integers of `width` bytes ----

  function Pow2(k: nat): (p: nat)
    ensures 0 < p
  {
    if k == 0 then 1 else 2 * Pow2(k - 1)
  }

  function Pow256(k: nat): (p: nat)
    ensures 0 < p
  {
    if k == 0 then 1 else 256 * Pow256(k - 1)
  }

  /** A right shift drops one low bit after another. */
  function ShiftRight(x: nat, bits: nat): nat {
    if bits == 0 then x else ShiftRight(x / 2, bits - 1)
  }

  /** A left shift drops what leaves the type. */
  function ShiftLeft(x: nat, bits: nat, width: nat): nat {
    (x * Pow2(bits)) % Pow256(width)
  }

  function Or(x: nat, y: nat): nat {
    if x == 0 && y == 0 then 0
    else (if x % 2 == 1 || y % 2 == 1 then 1 else 0) + 2 * Or(x / 2, y / 2)
  }

  predicate InRange(kind: Kind, value: int) {
    if kind.signed then 0 <= 2 * value + Pow256(kind.width) < 2 * Pow256(kind.width) else 0 <= value < Pow256(kind.width)
  }

  /** The cast to the unsigned type of the same width. */
  function ToUnsigned(kind: Kind, value: int): nat {
    value % Pow256(kind.width)
  }

  /** The cast back, two's complement for signed types. */
  function FromUnsigned(kind: Kind, u: nat): int {
    if kind.signed && 2 * u >= Pow256(kind.width) then u - Pow256(kind.width) else u
  }

  /** Two's complement: the cast keeps a value that is not negative and adds one whole range to one that is. */
  lemma CastIsTwosComplement(kind: Kind, value: int)
    requires InRange(kind, value)
    ensures ToUnsigned(kind, value) == if value >= 0 then value else value + Pow256(kind.width)
    ensures value < 0 ==> kind.signed
  {
    var m := Pow256(kind.width);
    if value < 0 {
      Residue(value, -1, value + m, m);
    } else {
      Residue(value, 0, value, m);
    }
  }

  /** The cast back gives the only value of the type that is congruent to the unsigned one. */
  lemma CastBackIsUnique(kind: Kind, u: nat, value: int)
    requires u < Pow256(kind.width)
    ensures InRange(kind, value) && value % Pow256(kind.width) == u <==> value == FromUnsigned(kind, u)
  {
    CastsAreInverseBack(kind, u);
    Residue(FromUnsigned(kind, u), if FromUnsigned(kind, u) == u then 0 else -1, u, Pow256(kind.width));
    if InRange(kind, value) && value % Pow256(kind.width) == u {
      CastIsTwosComplement(kind, value);
      Residue(value, if value >= 0 then 0 else -1, if value >= 0 then value else value + Pow256(kind.width), Pow256(kind.width));
    }
  }

  lemma CastsAreInverse(kind: Kind, value: int)
    requires InRange(kind, value)
    ensures ToUnsigned(kind, value) < Pow256(kind.width) && FromUnsigned(kind, ToUnsigned(kind, value)) == value
  {
    var m := Pow256(kind.width);
    if value < 0 {
      Residue(value, -1, value + m, m);
    } else {
      Residue(value, 0, value, m);
    }
  }

  lemma CastsAreInverseBack(kind: Kind, u: nat)
    requires u < Pow256(kind.width)
    ensures InRange(kind, FromUnsigned(kind, u)) && ToUnsigned(kind, FromUnsigned(kind, u)) == u
  {
    var m := Pow256(kind.width);
    var v := FromUnsigned(kind, u);
    Residue(v, if v == u then 0 else -1, u, m);
  }

  lemma MulAtLeast(m: int, d: int)
    requires 0 < m && 0 < d
    ensures m * d >= m
  {
  }

  lemma QuotientOfQuotient(x: nat, a: nat, b: nat)
    requires 0 < a && 0 < b
    ensures 0 < a * b && (x / a) / b == x / (a * b)
  {
    MulAtLeast(a, b);
    DivideTwice(x, a, b, x / a, x % a);
  }

  lemma DivideTwice(x: nat, a: nat, b: nat, q: nat, r: nat)
    requires 0 < a && 0 < b && x == a * q + r && r < a
    ensures 0 < a * b && q / b == x / (a * b)
  {
    MulAtLeast(a, b);
    var p, s := q / b, q % b;
    Regroup(a, b, p, s);
    MulMonotone(a, s, b - 1);
    MulSuccessor(a, b - 1);
    MulNonNegative(a, s);
    Residue(x, p, a * s + r, a * b);
  }

  lemma MulSuccessor(a: int, x: int)
    ensures a * (x + 1) == a * x + a
  {
  }

  lemma MulNonNegative(a: nat, x: nat)
    ensures 0 <= a * x
  {
  }

  lemma Regroup(a: int, b: int, p: int, s: int)
    ensures a * (b * p + s) == (a * b) * p + a * s
  {
    MulDistributes(a, b * p, s);
    MulAssociates(a, b, p);
  }

  lemma MulMonotone(a: nat, x: nat, y: nat)
    requires x <= y
    ensures a * x <= a * y
  {
  }

  lemma FourBits(k: nat)
    ensures Pow2(k + 4) == 16 * Pow2(k)
  {
    assert Pow2(k + 1) == 2 * Pow2(k);
    assert Pow2(k + 2) == 2 * Pow2(k + 1);
    assert Pow2(k + 3) == 2 * Pow2(k + 2);
    assert Pow2(k + 4) == 2 * Pow2(k + 3);
  }

  /** A shift by eight bits per byte is a division by a power of 256. */
  lemma {:induction false} ByteShift(k: nat)
    ensures Pow2(8 * k) == Pow256(k)
  {
    if k > 0 {
      ByteShift(k - 1);
      FourBits(8 * (k - 1));
      FourBits(8 * (k - 1) + 4);
    }
  }

  lemma {:induction false} OrIsSymmetric(x: nat, y: nat)
    ensures Or(x, y) == Or(y, x)
    decreases x + y
  {
    if x != 0 || y != 0 { OrIsSymmetric(x / 2, y / 2); }
  }

  lemma {:induction false} OrZero(x: nat)
    ensures Or(0, x) == x
  {
    if x != 0 { OrZero(x / 2); }
  }

  /** Or of a number with one shifted clear of it is their sum. */
  lemma {:induction false} OrDisjoint(x: nat, y: nat, k: nat)
    requires x < Pow2(k)
    ensures Or(x, y * Pow2(k)) == x + y * Pow2(k)
    decreases k
  {
    if k == 0 {
      OrZero(y);
    } else {
      var z := y * Pow2(k - 1);
      assert y * Pow2(k) == 2 * z;
      OrDisjoint(x / 2, y, k - 1);
    }
  }

  // ---- The formats ----

  function LeBytes(u: nat, n: nat): (bytes: seq<Byte>)
    ensures |bytes| == n
  {
    if n == 0 then [] else [u % 256] + LeBytes(u / 256, n - 1)
  }

  function BeBytes(u: nat, n: nat): (bytes: seq<Byte>)
    ensures |bytes| == n
  {
    if n == 0 then [] else BeBytes(u / 256, n - 1) + [u % 256]
  }

  /** The positional sum, least significant byte first. */
  function LeValue(bytes: seq<Byte>): nat {
    if bytes == [] then 0 else bytes[0] + 256 * LeValue(bytes[1..])
  }

  /** The positional sum, most significant byte first. */
  function BeValue(bytes: seq<Byte>): nat {
    if bytes == [] then 0 else 256 * BeValue(bytes[..|bytes| - 1]) + bytes[|bytes| - 1]
  }

  function Reversed(bytes: seq<Byte>): (r: seq<Byte>)
    ensures |r| == |bytes|
    ensures forall i | 0 <= i < |bytes| :: r[i] == bytes[|bytes| - 1 - i]
  {
    if bytes == [] then [] else Reversed(bytes[1..]) + [bytes[0]]
  }

  lemma ReversedTwice(bytes: seq<Byte>)
    ensures Reversed(Reversed(bytes)) == bytes
  {
  }

  lemma {:induction false} BeMirrorsLe(u: nat, n: nat)
    ensures BeBytes(u, n) == Reversed(LeBytes(u, n))
  {
    if n > 0 { BeMirrorsLe(u / 256, n - 1); }
  }

  lemma {:induction false} ReadersMirror(bytes: seq<Byte>)
    ensures BeValue(bytes) == LeValue(Reversed(bytes))
  {
    if bytes != [] {
      var front, last := bytes[..|bytes| - 1], bytes[|bytes| - 1];
      ReadersMirror(front);
      assert Reversed(bytes) == [last] + Reversed(front);
    }
  }

  lemma {:induction false} ValueOfLeBytes(u: nat, n: nat)
    requires u < Pow256(n)
    ensures LeValue(LeBytes(u, n)) == u
  {
    if n > 0 {
      ValueOfLeBytes(u / 256, n - 1);
      assert LeBytes(u, n)[1..] == LeBytes(u / 256, n - 1);
    }
  }

  lemma {:induction false} BytesOfLeValue(bytes: seq<Byte>)
    ensures LeValue(bytes) < Pow256(|bytes|)
    ensures LeBytes(LeValue(bytes), |bytes|) == bytes
  {
    if bytes != [] {
      var low, high := bytes[0], LeValue(bytes[1..]);
      BytesOfLeValue(bytes[1..]);
      LowByte(low, high);
      assert LeBytes(LeValue(bytes), |bytes|) == [low] + LeBytes(high, |bytes| - 1);
    }
  }

  lemma LowByte(low: Byte, high: nat)
    ensures (low + 256 * high) % 256 == low && (low + 256 * high) / 256 == high
  {
    Residue(low + 256 * high, high, low, 256);
  }

  lemma ValueOfBeBytes(u: nat, n: nat)
    requires u < Pow256(n)
    ensures BeValue(BeBytes(u, n)) == u
  {
    BeMirrorsLe(u, n);
    ReadersMirror(BeBytes(u, n));
    ReversedTwice(LeBytes(u, n));
    ValueOfLeBytes(u, n);
  }

  lemma BytesOfBeValue(bytes: seq<Byte>)
    ensures BeValue(bytes) < Pow256(|bytes|)
    ensures BeBytes(BeValue(bytes), |bytes|) == bytes
  {
    ReadersMirror(bytes);
    BytesOfLeValue(Reversed(bytes));
    BeMirrorsLe(BeValue(bytes), |bytes|);
    ReversedTwice(bytes);
  }

  /** Byte `i` of the little endian form sits above `8 * i` bits. */
  lemma {:induction false} LeByteAt(u: nat, n: nat, i: nat)
    requires i < n
    ensures LeBytes(u, n)[i] == (u / Pow256(i)) % 256
    decreases i
  {
    if i > 0 {
      LeByteAt(u / 256, n - 1, i - 1);
      QuotientOfQuotient(u, 256, Pow256(i - 1));
    }
  }

  lemma {:induction false} LeValueSnoc(bytes: seq<Byte>, b: Byte)
    ensures LeValue(bytes + [b]) == LeValue(bytes) + b * Pow256(|bytes|)
  {
    if bytes == [] {
      assert [] + [b] == [b] && [b][1..] == [];
    } else {
      assert (bytes + [b])[1..] == bytes[1..] + [b];
      LeValueSnoc(bytes[1..], b);
      Regroup256(b, Pow256(|bytes| - 1));
    }
  }

  lemma Regroup256(b: int, p: int)
    ensures 256 * (b * p) == b * (256 * p)
  {
  }

  lemma {:induction false} PowGrows(i: nat, n: nat)
    requires i <= n
    ensures Pow256(i) <= Pow256(n)
  {
    if i < n { PowGrows(i, n - 1); }
  }

  lemma {:induction false} PowSplit(i: nat, n: nat)
    requires i <= n
    ensures Pow256(n) == Pow256(i) * Pow256(n - i)
  {
    if i > 0 {
      PowSplit(i - 1, n - 1);
      MulAssociates(256, Pow256(i - 1), Pow256(n - i));
    }
  }

  /** Adding a multiple of `p * 256` to a number does not change its quotient by `p` modulo 256. */
  lemma ShiftedByte(value: int, p: nat, q: nat)
    requires 0 < p
    ensures ((value + p * (256 * q)) / p) % 256 == (value / p) % 256
  {
    var d, r := value / p, value % p;
    MulDistributes(p, d, 256 * q);
    Residue(value + p * (256 * q), d + 256 * q, r, p);
    Residue(d + 256 * q, d / 256 + q, d % 256, 256);
  }

  /** The bytes of the unsigned form are the bytes of the value, signed or not. */
  lemma ByteOfCast(kind: Kind, value: int, i: nat)
    requires InRange(kind, value) && i < kind.width
    ensures (ToUnsigned(kind, value) / Pow256(i)) % 256 == (value / Pow256(i)) % 256
  {
    CastIsTwosComplement(kind, value);
    if value < 0 {
      PowSplit(i, kind.width);
      ShiftedByte(value, Pow256(i), Pow256(kind.width - i - 1));
    }
  }

  /** The field is `value` in two's complement, least significant byte first: byte `i` holds its bits from `8 * i` on. */
  ghost predicate HoldsLe(field: seq<Byte>, value: int) {
    forall i | 0 <= i < |field| :: field[i] == (value / Pow256(i)) % 256
  }

  /** The same, most significant byte first. */
  ghost predicate HoldsBe(field: seq<Byte>, value: int) {
    forall i | 0 <= i < |field| :: field[i] == (value / Pow256(|field| - 1 - i)) % 256
  }

  /** A field of two bytes, spelled out: the low byte is the value modulo 256, the high byte the floor of its 256th. */
  lemma TwoBytes(a: Byte, b: Byte, value: int)
    ensures HoldsLe([a, b], value) <==> a == value % 256 && b == (value / 256) % 256
    ensures HoldsBe([b, a], value) <==> a == value % 256 && b == (value / 256) % 256
  {
    assert Pow256(0) == 1 && Pow256(1) == 256;
    if HoldsLe([a, b], value) { assert [a, b][0] == a && [a, b][1] == b; }
    if HoldsBe([b, a], value) { assert [b, a][0] == b && [b, a][1] == a; }
  }

  lemma LeBytesHold(kind: Kind, value: int)
    requires InRange(kind, value)
    ensures HoldsLe(LeBytes(ToUnsigned(kind, value), kind.width), value)
  {
    forall i | 0 <= i < kind.width ensures LeBytes(ToUnsigned(kind, value), kind.width)[i] == (value / Pow256(i)) % 256 {
      LeByteAt(ToUnsigned(kind, value), kind.width, i);
      ByteOfCast(kind, value, i);
    }
  }

  lemma BeBytesHold(kind: Kind, value: int)
    requires InRange(kind, value)
    ensures HoldsBe(BeBytes(ToUnsigned(kind, value), kind.width), value)
  {
    forall i | 0 <= i < kind.width
      ensures BeBytes(ToUnsigned(kind, value), kind.width)[i] == (value / Pow256(kind.width - 1 - i)) % 256
    {
      BeByteAt(ToUnsigned(kind, value), kind.width, i);
      ByteOfCast(kind, value, kind.width - 1 - i);
    }
  }

  /** The little endian reader's value is in range and has the bytes of the field. */
  lemma LeValueHolds(kind: Kind, field: seq<Byte>)
    requires |field| == kind.width
    ensures var value := FromUnsigned(kind, LeValue(field)); InRange(kind, value) && HoldsLe(field, value)
  {
    BytesOfLeValue(field);
    CastsAreInverseBack(kind, LeValue(field));
    LeBytesHold(kind, FromUnsigned(kind, LeValue(field)));
  }

  lemma BeValueHolds(kind: Kind, field: seq<Byte>)
    requires |field| == kind.width
    ensures var value := FromUnsigned(kind, BeValue(field)); InRange(kind, value) && HoldsBe(field, value)
  {
    BytesOfBeValue(field);
    CastsAreInverseBack(kind, BeValue(field));
    BeBytesHold(kind, FromUnsigned(kind, BeValue(field)));
  }

  // ---- The four loops ----

  /** Unsigned `x - y` on `size_t`: it wraps when `y` is the larger. */
  function SizeMinus(x: nat, y: nat): int {
    if y <= x then x - y else x - y + 0x1_0000_0000_0000_0000
  }

  /** `require_range` subtracts only after it knows that this does not wrap, and decides `offset + width <= size`. */
  method RequireRange(size: nat, offset: nat, width: nat) returns (r: Option<Error>)
    ensures r == if offset + width <= size then None else Some(OutOfRange)
  {
    if offset > size || SizeMinus(size, offset) < width {
      return Some(OutOfRange);
    }
    r := None;
  }

  /** One step of the little endian write loop. */
  lemma LeWriteStep(u: nat, n: nat, i: nat, current: nat)
    requires i < n && current == u / Pow256(i)
    ensures current % 256 == LeBytes(u, n)[i]
    ensures ShiftRight(current, 8) == u / Pow256(i + 1)
  {
    LeByteAt(u, n, i);
    QuotientOfQuotient(u, Pow256(i), 256);
    ShiftIsDivision(current, 1);
  }

  /** The shifting loop. */
  method FillLe(buffer: array<Byte>, offset: nat, kind: Kind, value: int)
    requires InRange(kind, value) && offset + kind.width <= buffer.Length
    modifies buffer
    ensures buffer[..] == old(buffer[..offset]) + LeBytes(ToUnsigned(kind, value), kind.width)
                        + old(buffer[offset + kind.width..])
  {
    ghost var u := ToUnsigned(kind, value);
    var current := ToUnsigned(kind, value);
    for i := 0 to kind.width
      invariant current == u / Pow256(i)
      invariant forall j | 0 <= j < i :: buffer[offset + j] == LeBytes(u, kind.width)[j]
      invariant forall j | 0 <= j < buffer.Length && !(offset <= j < offset + i) :: buffer[j] == old(buffer[j])
    {
      LeWriteStep(u, kind.width, i, current);
      buffer[offset + i] := current % 256;
      current := ShiftRight(current, 8);
    }
  }

  method WriteLe(buffer: array<Byte>, offset: nat, kind: Kind, value: int) returns (r: Option<Error>)
    requires InRange(kind, value)
    modifies buffer
    ensures r == if offset + kind.width <= buffer.Length then None else Some(OutOfRange)
    ensures r.Some? ==> buffer[..] == old(buffer[..])
    ensures r.None? ==> buffer[..] == old(buffer[..offset]) + LeBytes(ToUnsigned(kind, value), kind.width)
                                    + old(buffer[offset + kind.width..])
    ensures r.None? ==> HoldsLe(buffer[offset..offset + kind.width], value)
  {
    r := RequireRange(buffer.Length, offset, kind.width);
    if r.Some? { return; }
    FillLe(buffer, offset, kind, value);
    LeBytesHold(kind, value);
    assert buffer[offset..offset + kind.width] == LeBytes(ToUnsigned(kind, value), kind.width);
  }

  /** A byte shifted to its place stays inside the type. */
  lemma ByteInPlace(b: Byte, i: nat, width: nat)
    requires i < width
    ensures ShiftLeft(b, 8 * i, width) == b * Pow2(8 * i) == b * Pow256(i)
  {
    ByteShift(i);
    PowGrows(i + 1, width);
    MulMonotone(Pow256(i), b, 255);
    Residue(b * Pow256(i), 0, b * Pow256(i), Pow256(width));
  }

  /** One step of the little endian read loop: or-ing in a byte above the ones already read adds it. */
  lemma LeReadStep(bytes: seq<Byte>, b: Byte, width: nat)
    requires |bytes| < width
    ensures Or(LeValue(bytes), ShiftLeft(b, 8 * |bytes|, width)) == LeValue(bytes + [b])
  {
    BytesOfLeValue(bytes);
    LeValueSnoc(bytes, b);
    ByteInPlace(b, |bytes|, width);
    ByteShift(|bytes|);
    OrDisjoint(LeValue(bytes), b, 8 * |bytes|);
  }

  method ReadLe(buffer: array<Byte>, offset: nat, kind: Kind) returns (r: Result<int, Error>)
    ensures r.Success? == (offset + kind.width <= buffer.Length)
    ensures r.Failure? ==> r.error == OutOfRange
    ensures r.Success? ==> r.value == FromUnsigned(kind, LeValue(buffer[offset..offset + kind.width]))
    ensures r.Success? ==> InRange(kind, r.value) && HoldsLe(buffer[offset..offset + kind.width], r.value)
  {
    var refused := RequireRange(buffer.Length, offset, kind.width);
    if refused.Some? { return Failure(refused.value); }
    var result := 0;
    for i := 0 to kind.width
      invariant result == LeValue(buffer[offset..offset + i])
    {
      assert buffer[offset..offset + i + 1] == buffer[offset..offset + i] + [buffer[offset + i]];
      LeReadStep(buffer[offset..offset + i], buffer[offset + i], kind.width);
      result := Or(result, ShiftLeft(buffer[offset + i], 8 * i, kind.width));
    }
    LeValueHolds(kind, buffer[offset..offset + kind.width]);
    r := Success(FromUnsigned(kind, result));
  }

  lemma {:induction false} ShiftIsQuotient(u: nat, bits: nat)
    ensures ShiftRight(u, bits) == u / Pow2(bits)
    decreases bits
  {
    if bits > 0 {
      ShiftIsQuotient(u / 2, bits - 1);
      QuotientOfQuotient(u, 2, Pow2(bits - 1));
    }
  }

  lemma ShiftIsDivision(u: nat, k: nat)
    ensures ShiftRight(u, 8 * k) == u / Pow256(k)
  {
    ByteShift(k);
    ShiftIsQuotient(u, 8 * k);
  }

  /** The big endian writer indexes by shift; byte `i` is byte `width - 1 - i` of the little endian form. */
  lemma BeWriteStep(u: nat, n: nat, i: nat)
    requires i < n
    ensures ShiftRight(u, 8 * (n - 1 - i)) % 256 == BeBytes(u, n)[i]
  {
    BeByteAt(u, n, i);
    ShiftIsDivision(u, n - 1 - i);
  }

  lemma {:induction false} BeByteAt(u: nat, n: nat, i: nat)
    requires i < n
    ensures BeBytes(u, n)[i] == (u / Pow256(n - 1 - i)) % 256
  {
    if i < n - 1 {
      BeByteAt(u / 256, n - 1, i);
      QuotientOfQuotient(u, 256, Pow256(n - 2 - i));
    }
  }

  /** The indexing loop. */
  method FillBe(buffer: array<Byte>, offset: nat, kind: Kind, value: int)
    requires InRange(kind, value) && offset + kind.width <= buffer.Length
    modifies buffer
    ensures buffer[..] == old(buffer[..offset]) + BeBytes(ToUnsigned(kind, value), kind.width)
                        + old(buffer[offset + kind.width..])
  {
    var current := ToUnsigned(kind, value);
    for i := 0 to kind.width
      invariant forall j | 0 <= j < i :: buffer[offset + j] == BeBytes(current, kind.width)[j]
      invariant forall j | 0 <= j < buffer.Length && !(offset <= j < offset + i) :: buffer[j] == old(buffer[j])
    {
      BeWriteStep(current, kind.width, i);
      var shift := 8 * (kind.width - 1 - i);
      buffer[offset + i] := ShiftRight(current, shift) % 256;
    }
  }

  method WriteBe(buffer: array<Byte>, offset: nat, kind: Kind, value: int) returns (r: Option<Error>)
    requires InRange(kind, value)
    modifies buffer
    ensures r == if offset + kind.width <= buffer.Length then None else Some(OutOfRange)
    ensures r.Some? ==> buffer[..] == old(buffer[..])
    ensures r.None? ==> buffer[..] == old(buffer[..offset]) + BeBytes(ToUnsigned(kind, value), kind.width)
                                    + old(buffer[offset + kind.width..])
    ensures r.None? ==> HoldsBe(buffer[offset..offset + kind.width], value)
  {
    r := RequireRange(buffer.Length, offset, kind.width);
    if r.Some? { return; }
    FillBe(buffer, offset, kind, value);
    BeBytesHold(kind, value);
    assert buffer[offset..offset + kind.width] == BeBytes(ToUnsigned(kind, value), kind.width);
  }

  /** One step of the big endian read loop: shifting makes room for the next byte and loses nothing. */
  lemma BeReadStep(bytes: seq<Byte>, b: Byte, width: nat)
    requires |bytes| < width
    ensures Or(ShiftLeft(BeValue(bytes), 8, width), b) == BeValue(bytes + [b])
  {
    var v := BeValue(bytes);
    assert (bytes + [b])[..|bytes|] == bytes;
    BytesOfBeValue(bytes);
    BytesOfBeValue(bytes + [b]);
    PowGrows(|bytes| + 1, width);
    ByteShift(1);
    Residue(v * 256, 0, v * 256, Pow256(width));
    OrIsSymmetric(v * 256, b);
    OrDisjoint(b, v, 8);
  }

  method ReadBe(buffer: array<Byte>, offset: nat, kind: Kind) returns (r: Result<int, Error>)
    ensures r.Success? == (offset + kind.width <= buffer.Length)
    ensures r.Failure? ==> r.error == OutOfRange
    ensures r.Success? ==> r.value == FromUnsigned(kind, BeValue(buffer[offset..offset + kind.width]))
    ensures r.Success? ==> InRange(kind, r.value) && HoldsBe(buffer[offset..offset + kind.width], r.value)
  {
    var refused := RequireRange(buffer.Length, offset, kind.width);
    if refused.Some? { return Failure(refused.value); }
    var result := 0;
    for i := 0 to kind.width
      invariant result == BeValue(buffer[offset..offset + i])
    {
      assert buffer[offset..offset + i + 1] == buffer[offset..offset + i] + [buffer[offset + i]];
      BeReadStep(buffer[offset..offset + i], buffer[offset + i], kind.width);
      result := Or(ShiftLeft(result, 8, kind.width), buffer[offset + i]);
    }
    BeValueHolds(kind, buffer[offset..offset + kind.width]);
    r := Success(FromUnsigned(kind, result));
  }

  // ---- Round trips through a buffer ----

  datatype Order = Little | Big

  function Encode(order: Order, kind: Kind, value: int): (bytes: seq<Byte>)
    ensures |bytes| == kind.width
  {
    var u := ToUnsigned(kind, value);
    if order.Little? then LeBytes(u, kind.width) else BeBytes(u, kind.width)
  }

  function Decode(order: Order, kind: Kind, bytes: seq<Byte>): int {
    FromUnsigned(kind, if order.Little? then LeValue(bytes) else BeValue(bytes))
  }

  /** Decoding undoes encoding on the type's range. */
  lemma ValueOfWritten(order: Order, kind: Kind, value: int)
    requires InRange(kind, value)
    ensures Decode(order, kind, Encode(order, kind, value)) == value
  {
    var u := ToUnsigned(kind, value);
    CastsAreInverse(kind, value);
    if order.Little? { ValueOfLeBytes(u, kind.width); } else { ValueOfBeBytes(u, kind.width); }
  }

  /** Encoding undoes decoding on every field. */
  lemma BytesOfRead(order: Order, kind: Kind, bytes: seq<Byte>)
    requires |bytes| == kind.width
    ensures InRange(kind, Decode(order, kind, bytes)) && Encode(order, kind, Decode(order, kind, bytes)) == bytes
  {
    if order.Little? { BytesOfLeValue(bytes); } else { BytesOfBeValue(bytes); }
    CastsAreInverseBack(kind, if order.Little? then LeValue(bytes) else BeValue(bytes));
  }

  method Write(order: Order, buffer: array<Byte>, offset: nat, kind: Kind, value: int) returns (r: Option<Error>)
    requires InRange(kind, value)
    modifies buffer
    ensures r == if offset + kind.width <= buffer.Length then None else Some(OutOfRange)
    ensures r.Some? ==> buffer[..] == old(buffer[..])
    ensures r.None? ==>
              buffer[..] == old(buffer[..offset]) + Encode(order, kind, value) + old(buffer[offset + kind.width..])
  {
    match order
    case Little => r := WriteLe(buffer, offset, kind, value);
    case Big => r := WriteBe(buffer, offset, kind, value);
  }

  method Read(order: Order, buffer: array<Byte>, offset: nat, kind: Kind) returns (r: Result<int, Error>)
    ensures r.Success? == (offset + kind.width <= buffer.Length)
    ensures r.Success? ==>
              r.value == Decode(order, kind, buffer[offset..offset + kind.width])
  {
    match order
    case Little => r := ReadLe(buffer, offset, kind);
    case Big => r := ReadBe(buffer, offset, kind);
  }

  /** What was written is read back, signed values included, and the rest of the buffer is untouched. */
  method WriteThenRead(order: Order, buffer: array<Byte>, offset: nat, kind: Kind, value: int) returns (r: Result<int, Error>)
    requires InRange(kind, value)
    modifies buffer
    ensures r.Success? == (offset + kind.width <= buffer.Length)
    ensures r.Success? ==> r.value == value
    ensures r.Failure? ==> buffer[..] == old(buffer[..])
    ensures forall j | 0 <= j < buffer.Length && !(offset <= j < offset + kind.width) :: buffer[j] == old(buffer[j])
  {
    var refused := Write(order, buffer, offset, kind, value);
    if refused.Some? { return Failure(refused.value); }
    ValueOfWritten(order, kind, value);
    assert buffer[..][offset..offset + kind.width] == buffer[offset..offset + kind.width];
    forall j | 0 <= j < buffer.Length && !(offset <= j < offset + kind.width) ensures buffer[j] == old(buffer[j]) {
      assert buffer[j] == buffer[..][j];
    }
    r := Read(order, buffer, offset, kind);
  }

  /** Writing back what was read restores every byte. */
  method ReadThenWrite(order: Order, buffer: array<Byte>, offset: nat, kind: Kind) returns (r: Option<Error>)
    modifies buffer
    ensures r == if offset + kind.width <= buffer.Length then None else Some(OutOfRange)
    ensures buffer[..] == old(buffer[..])
  {
    var read := Read(order, buffer, offset, kind);
    if read.Failure? { return Some(OutOfRange); }
    BytesOfRead(order, kind, buffer[offset..offset + kind.width]);
    assert buffer[..] == buffer[..offset] + buffer[offset..offset + kind.width] + buffer[offset + kind.width..];
    r := Write(order, buffer, offset, kind, read.value);
  }
}
