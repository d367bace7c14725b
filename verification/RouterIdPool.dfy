/** Router IDs generated from a node name's hash, in the 32-bit arithmetic of the sources. */
module RouterIdPool {
  import opened Wrappers
  import opened Messages

  const MIN_POOL_PREFIX := 24
  const TWO_32 := 0x1_0000_0000

  type byte = x: int | 0 <= x < 256
  type Bytes16 = b: seq<byte> | |b| == 16 witness [0, 0, 0, 0, 0, 0, 0, 0, 0, 0, 0, 0, 0, 0, 0, 0]

  /** A parsed CIDR: IPv4 text has a 32-bit mask, IPv6 text, mapped addresses included, a 128-bit one. */
  datatype Cidr = V4(address: uint32, prefix4: Prefix4) | V6(bytes: Bytes16, prefix6: Prefix6)
  type Prefix4 = x: int | 0 <= x <= 32
  type Prefix6 = x: int | 0 <= x <= 128

  function Pow2(n: nat): (r: nat)
    ensures r > 0
  {
    if n == 0 then 1 else 2 * Pow2(n - 1)
  }

  lemma {:induction false} Pow2Adds(a: nat, b: nat)
    ensures Pow2(a) * Pow2(b) == Pow2(a + b)
  {
    if a > 0 {
      Pow2Adds(a - 1, b);
      assert Pow2(a) * Pow2(b) == 2 * (Pow2(a - 1) * Pow2(b));
    }
  }

  lemma {:induction false} Pow2Grows(a: nat, b: nat)
    requires a <= b
    ensures Pow2(a) <= Pow2(b)
  {
    if a < b {
      Pow2Grows(a, b - 1);
    }
  }

  lemma Pow2Of32()
    ensures Pow2(8) == 256 && Pow2(32) == TWO_32
  {
    Pow2Adds(8, 8);
    Pow2Adds(16, 16);
  }

  function Wrap(x: int): uint32 {
    x % TWO_32
  }

  // ---- the network address ----

  /** The largest multiple of m up to x: x with its low bits cleared, when m is a power of two. */
  function Floor(x: nat, m: nat): (r: nat)
    requires m > 0
    ensures r <= x < r + m
  {
    x / m * m
  }

  lemma FloorIsMultiple(x: nat, m: nat)
    requires m > 0
    ensures Floor(x, m) % m == 0
  {
    var q := x / m;
    var d, r := q * m / m, q * m % m;
    assert q * m == d * m + r;
    NoMultipleBetween(q - d, m, r);
  }

  lemma NoMultipleBetween(k: int, m: nat, r: int)
    requires k * m == r && 0 <= r < m
    ensures r == 0
  {
    if k >= 1 {
      assert k * m == (k - 1) * m + m;
    } else if k <= -1 {
      assert k * m == (k + 1) * m - m;
    }
  }

  function Base4(address: uint32, prefix: Prefix4): (r: uint32)
    ensures r <= address
  {
    Floor(address, Pow2(32 - prefix))
  }

  /** The masked bytes of an IPv6 network address. */
  function MaskedByte(b: byte, i: nat, prefix: Prefix6): byte {
    if prefix >= 8 * (i + 1) then b else if prefix <= 8 * i then 0 else Floor(b, Pow2(8 * (i + 1) - prefix))
  }

  function Mask(bytes: Bytes16, prefix: Prefix6): Bytes16 {
    seq(16, i requires 0 <= i < 16 => MaskedByte(bytes[i], i, prefix))
  }

  /** IP.To4: only a mapped address has an IPv4 form. */
  predicate HasV4Form(b: Bytes16) {
    b[..10] == [0, 0, 0, 0, 0, 0, 0, 0, 0, 0] && b[10] == 255 && b[11] == 255
  }

  // ---- validation and generation ----

  /** ValidateRouterIDPool. The mask's own length is not looked at. */
  predicate Accepts(pool: string, parse: string -> Option<Cidr>) {
    pool == "" ||
    match parse(pool)
    case None => false
    case Some(V4(_, prefix)) => prefix <= MIN_POOL_PREFIX
    case Some(V6(bytes, prefix)) => HasV4Form(Mask(bytes, prefix)) && prefix <= MIN_POOL_PREFIX
  }

  function PoolSize(prefix: Prefix4): uint32 {
    Wrap(Pow2(32 - prefix))
  }

  function Offset(hash: uint32, prefix: Prefix4): uint32
    requires prefix <= MIN_POOL_PREFIX
  {
    assert Wrap(PoolSize(prefix) - 2) > 0 by { UsableAddresses(prefix); }
    Wrap(hash % Wrap(PoolSize(prefix) - 2) + 1)
  }

  /** GenerateRouterIDFromNodeName, from the hash on. */
  function Generate(hash: uint32, pool: string, parse: string -> Option<Cidr>): Result<uint32> {
    match parse(pool)
    case None => Err
    case Some(V6(_, _)) => Err
    case Some(V4(address, prefix)) =>
      if prefix > MIN_POOL_PREFIX then Err else Ok(Wrap(Base4(address, prefix) + Offset(hash, prefix)))
  }

  // ---- properties ----

  /** The modulus is the number of usable addresses, also for /0, where the pool size truncates to zero and
      the subtraction wraps. */
  lemma UsableAddresses(prefix: Prefix4)
    requires prefix <= MIN_POOL_PREFIX
    ensures Wrap(PoolSize(prefix) - 2) == Pow2(32 - prefix) - 2
    ensures 256 <= Pow2(32 - prefix) <= TWO_32
  {
    Pow2Of32();
    Pow2Grows(8, 32 - prefix);
    Pow2Grows(32 - prefix, 32);
    if prefix > 0 {
      Pow2Grows(32 - prefix, 31);
    }
  }

  /** A network's last address is still a 32-bit number. */
  lemma NetworkFits(address: uint32, prefix: Prefix4)
    ensures Base4(address, prefix) + Pow2(32 - prefix) <= TWO_32
  {
    Pow2Of32();
    Pow2Adds(32 - prefix, prefix);
    FloorLeavesRoom(address, Pow2(32 - prefix), Pow2(prefix));
  }

  lemma FloorLeavesRoom(x: nat, m: nat, n: nat)
    requires m > 0 && x < m * n
    ensures Floor(x, m) + m <= m * n
  {
    var q := x / m;
    if q >= n {
      assert q * m >= n * m;
    } else {
      assert (q + 1) * m <= n * m;
      assert (q + 1) * m == q * m + m;
    }
  }

  /** The network address is the multiple of the pool's size just below the address. Every generated ID lies
      strictly between the network and the broadcast address, and nothing wraps on the way. */
  lemma GeneratedIsUsable(hash: uint32, address: uint32, prefix: Prefix4, pool: string, parse: string -> Option<Cidr>)
    requires parse(pool) == Some(V4(address, prefix)) && prefix <= MIN_POOL_PREFIX
    ensures var base, size := Base4(address, prefix), Pow2(32 - prefix);
      && base <= address < base + size && base % size == 0
      && size > 2 && Generate(hash, pool, parse) == Ok(base + hash % (size - 2) + 1)
      && base < base + hash % (size - 2) + 1 < base + size - 1 < TWO_32
  {
    BaseIsNetwork(address, prefix);
    hide Pow2, Base4, Offset, PoolSize;
    UsableAddresses(prefix);
    NetworkFits(address, prefix);
    OffsetIsUsable(hash, prefix);
    NoWrap(Base4(address, prefix) + Offset(hash, prefix));
  }

  lemma BaseIsNetwork(address: uint32, prefix: Prefix4)
    ensures Base4(address, prefix) <= address < Base4(address, prefix) + Pow2(32 - prefix)
    ensures Base4(address, prefix) % Pow2(32 - prefix) == 0
  {
    FloorIsMultiple(address, Pow2(32 - prefix));
  }

  lemma OffsetIsUsable(hash: uint32, prefix: Prefix4)
    requires prefix <= MIN_POOL_PREFIX
    ensures 256 <= Pow2(32 - prefix)
    ensures Offset(hash, prefix) == hash % (Pow2(32 - prefix) - 2) + 1
    ensures 0 < Offset(hash, prefix) < Pow2(32 - prefix) - 1
  {
    UsableAddresses(prefix);
    hide Pow2, PoolSize;
    Remainder(hash, Pow2(32 - prefix) - 2);
    NoWrap(hash % (Pow2(32 - prefix) - 2) + 1);
  }

  lemma Remainder(x: nat, m: nat)
    requires m > 0
    ensures 0 <= x % m < m
  {
  }

  lemma NoWrap(x: nat)
    requires x < TWO_32
    ensures Wrap(x) == x
  {
  }

  /** And every such address is the ID of some hash. */
  lemma EveryUsableIsGenerated(id: uint32, address: uint32, prefix: Prefix4, pool: string, parse: string -> Option<Cidr>)
    returns (hash: uint32)
    requires parse(pool) == Some(V4(address, prefix)) && prefix <= MIN_POOL_PREFIX
    requires Base4(address, prefix) < id < Base4(address, prefix) + Pow2(32 - prefix) - 1
    ensures Generate(hash, pool, parse) == Ok(id)
  {
    hash := id - Base4(address, prefix) - 1;
    GeneratedIsUsable(hash, address, prefix, pool, parse);
    var size := Pow2(32 - prefix);
    assert hash % (size - 2) == hash by { SmallMod(hash, size - 2); }
  }

  lemma SmallMod(x: nat, m: nat)
    requires x < m
    ensures x % m == x
  {
  }

  /** A mask short enough for the pool check clears what an IPv4 form needs. */
  lemma ShortMaskHasNoV4Form(bytes: Bytes16, prefix: Prefix6)
    requires prefix <= MIN_POOL_PREFIX
    ensures !HasV4Form(Mask(bytes, prefix))
  {
    assert Mask(bytes, prefix)[10] == 0;
  }

  /** The pool check and the generator agree: a stated pool passes exactly when it yields an ID, for one hash
      or for all, and that is exactly when it is IPv4 text with a prefix of at most 24 bits. */
  lemma AcceptedIffGenerates(pool: string, hash: uint32, parse: string -> Option<Cidr>)
    requires pool != ""
    ensures Accepts(pool, parse) <==> Generate(hash, pool, parse).Ok?
    ensures Accepts(pool, parse) <==> parse(pool).Some? && parse(pool).value.V4? && parse(pool).value.prefix4 <= 24
  {
    match parse(pool)
    case Some(V6(bytes, prefix)) =>
      if prefix <= MIN_POOL_PREFIX {
        ShortMaskHasNoV4Form(bytes, prefix);
      }
    case _ =>
  }
}
