/** The raw byte layout that `reinterpret_cast` exposes for a trivially
    copyable integer: `sizeof(T)` bytes of two's complement, least significant
    byte first (the native order of the usual hosts), and the modular
    conversion C++ applies when a `long long` is stored into a narrower type. */
module NativeLayout {
  import opened Bytes

  /** An integer type: its `sizeof` and whether it is signed. */
  datatype IntKind = IntKind(width: nat, signed: bool)

  /** `size_t` on a 64-bit host: the type of every length prefix. */
  const SizeT: IntKind := IntKind(8, false)

  /** 2^64, one more than the largest `size_t`. */
  const SizeLimit: nat := 0x1_0000_0000_0000_0000

  predicate ValidKind(k: IntKind) {
    k.width == 1 || k.width == 2 || k.width == 4 || k.width == 8
  }

  /** 256^w: the number of distinct values of a w-byte type. */
  function Pow256(w: nat): (r: nat)
    ensures r >= 1
    ensures w >= 1 ==> r % 2 == 0 && r >= 256
  {
    if w == 0 then 1 else 256 * Pow256(w - 1)
  }

  lemma Pow256Eight()
    ensures Pow256(8) == SizeLimit
  {
    assert Pow256(4) == 0x1_0000_0000;
  }

  /** Every length below `SizeLimit` is a `size_t`. */
  lemma SizeFits(n: int)
    requires 0 <= n < SizeLimit
    ensures ValidKind(SizeT) && InRange(SizeT, n)
  {
    Pow256Eight();
  }

  function MinOf(k: IntKind): int {
    if k.signed then -(Pow256(k.width) / 2) else 0
  }

  function MaxOf(k: IntKind): int {
    if k.signed then Pow256(k.width) / 2 - 1 else Pow256(k.width) - 1
  }

  /** `x` is a value of the integer type `k`. */
  predicate InRange(k: IntKind, x: int) {
    MinOf(k) <= x <= MaxOf(k)
  }

  /** The unsigned reading of the bits of `x`. */
  function ToBits(k: IntKind, x: int): (n: nat)
    requires ValidKind(k) && InRange(k, x)
    ensures n < Pow256(k.width)
    ensures x >= 0 ==> n == x
  {
    if x < 0 then x + Pow256(k.width) else x
  }

  /** The value of type `k` whose bits read as the unsigned number `n`. */
  function FromBits(k: IntKind, n: nat): (x: int)
    requires ValidKind(k) && n < Pow256(k.width)
    ensures InRange(k, x)
    ensures x % Pow256(k.width) == n
  {
    ModOfShifted(n, Pow256(k.width));
    if k.signed && n >= Pow256(k.width) / 2 then n - Pow256(k.width) else n
  }

  lemma ModOfShifted(n: int, p: int)
    requires 0 <= n < p
    ensures n % p == n && (n - p) % p == n
  {
    assert (n - p) / p == -1;
  }

  lemma BitsRoundTrip(k: IntKind, x: int)
    requires ValidKind(k) && InRange(k, x)
    ensures FromBits(k, ToBits(k, x)) == x
  {
  }

  /** Storing a `long long` into type `k`: the value of `k` congruent to `x`
      modulo 256^sizeof. */
  function Narrow(k: IntKind, x: int): (r: int)
    requires ValidKind(k)
    ensures InRange(k, r)
    ensures r % Pow256(k.width) == x % Pow256(k.width)
    ensures InRange(k, x) ==> r == x
  {
    var p := Pow256(k.width);
    var r := FromBits(k, x % p);
    assert InRange(k, x) ==> r == x by {
      if InRange(k, x) { NarrowInRange(p, x); }
    }
    r
  }

  lemma NarrowInRange(p: int, x: int)
    requires p >= 1 && -p <= x < p
    ensures x >= 0 ==> x % p == x
    ensures x < 0 ==> x % p == x + p
  {
    if x >= 0 {
      assert x / p == 0;
    } else {
      assert x / p == -1;
    }
  }

  /** The `w` bytes of the unsigned number `n`, least significant first. */
  function LittleEndian(n: nat, w: nat): (r: seq<byte>)
    requires n < Pow256(w)
    ensures |r| == w
  {
    if w == 0 then []
    else
      assert n / 256 < Pow256(w - 1);
      [n % 256] + LittleEndian(n / 256, w - 1)
  }

  /** The unsigned number whose little-endian bytes are `b`. */
  function FromLittleEndian(b: seq<byte>): (n: nat)
    ensures n < Pow256(|b|)
  {
    if b == [] then 0
    else
      var rest := FromLittleEndian(b[1..]);
      assert b[0] + 256 * rest <= 255 + 256 * (Pow256(|b| - 1) - 1);
      b[0] + 256 * rest
  }

  lemma {:induction false} LittleEndianRoundTrip(n: nat, w: nat)
    requires n < Pow256(w)
    ensures FromLittleEndian(LittleEndian(n, w)) == n
  {
    if w > 0 {
      assert n / 256 < Pow256(w - 1);
      var b := LittleEndian(n, w);
      assert b[1..] == LittleEndian(n / 256, w - 1);
      LittleEndianRoundTrip(n / 256, w - 1);
    }
  }

  /** The `sizeof(T)` bytes `reinterpret_cast` shows for `x` of type `k`. */
  function RawBytes(k: IntKind, x: int): (r: seq<byte>)
    requires ValidKind(k) && InRange(k, x)
    ensures |r| == k.width
  {
    LittleEndian(ToBits(k, x), k.width)
  }

  /** The value of type `k` that `memcpy` of `b` into it produces. */
  function FromRawBytes(k: IntKind, b: seq<byte>): (x: int)
    requires ValidKind(k) && |b| == k.width
    ensures InRange(k, x)
  {
    FromBits(k, FromLittleEndian(b))
  }

  /** Reading back the bytes of a value gives the value. */
  lemma RawBytesRoundTrip(k: IntKind, x: int)
    requires ValidKind(k) && InRange(k, x)
    ensures FromRawBytes(k, RawBytes(k, x)) == x
  {
    LittleEndianRoundTrip(ToBits(k, x), k.width);
  }
}
