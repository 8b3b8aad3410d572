/** Zone arithmetic: shifts, powers of two, and the map from sectors to zones. */
module Geometry {

  const TWO16: nat := 0x1_0000
  const TWO32: nat := 0x1_0000_0000
  const TWO64: nat := 0x1_0000_0000_0000_0000

  type u8 = x: nat | x < 0x100
  type u16 = x: nat | x < TWO16
  type u32 = x: nat | x < TWO32
  type u64 = x: nat | x < TWO64

  const ZONE_SIZE_SHIFT_DEFAULT: nat := 16

  /** Largest zone shift a 32-bit zone size can name: 8 * 2^28 sectors. */
  const ZONE_SIZE_SHIFT_MAX: nat := 28

  function Wrap32(x: nat): u32 { if x < TWO32 then x else x % TWO32 }

  function Pow2(k: nat): (r: nat)
    ensures r >= 1
  {
    if k == 0 then 1 else 2 * Pow2(k - 1)
  }

  /** Sectors in a zone for a given zone shift. */
  function ZoneSectors(shift: nat): (z: nat)
    ensures z >= 8 && z % 8 == 0
  {
    8 * Pow2(shift)
  }

  /** The 32-bit product `2 * num_sectors_zone()`; it wraps to 0 for the largest zone size. */
  function Twice32(z: nat): u32 { Wrap32(2 * z) }

  /** A sector shifted down by the block shift and then by the zone shift. */
  function ShiftedDown(sector: nat, shift: nat): nat { sector / 8 / Pow2(shift) }

  lemma {:induction false} Pow2Monotone(j: nat, k: nat)
    requires j <= k
    ensures Pow2(j) <= Pow2(k)
  {
    if j == k {
    } else {
      Pow2Monotone(j, k - 1);
    }
  }

  lemma Pow2Order(j: nat, k: nat)
    ensures Pow2(j) < Pow2(k) <==> j < k
  {
    if j < k {
      Pow2Monotone(j + 1, k);
    } else {
      Pow2Monotone(k, j);
    }
  }

  /** Every admissible zone size fits in 32 bits. */
  lemma ZoneSectorsBound(shift: nat)
    requires shift <= ZONE_SIZE_SHIFT_MAX
    ensures ZoneSectors(shift) <= 0x8000_0000
  {
    Pow2Monotone(shift, 28);
    Pow2Values();
  }

  lemma Pow2Values()
    ensures Pow2(16) == 0x1_0000 && Pow2(28) == 0x1000_0000
  {
    assert Pow2(4) == 16;
    assert Pow2(8) == 256;
    assert Pow2(12) == 4096;
    assert Pow2(16) == 0x1_0000;
    assert Pow2(20) == 0x10_0000;
    assert Pow2(24) == 0x100_0000;
  }

  /** Below the largest zone size, twice the size still fits 32 bits. */
  lemma NotLargest(shift: nat)
    requires shift < ZONE_SIZE_SHIFT_MAX
    ensures ZoneSectors(shift) <= 0x4000_0000
  {
    Pow2Monotone(shift + 1, 28);
    Pow2Values();
  }

  lemma DefaultZoneSectors()
    ensures ZoneSectors(ZONE_SIZE_SHIFT_DEFAULT) == 0x8_0000
  {
    Pow2Values();
  }

  // ---------------------------------------------------------------- division

  lemma MulMonotone(a: nat, b: nat, z: nat)
    requires a <= b
    ensures a * z <= b * z
  {}

  lemma Successor(a: nat, z: nat)
    ensures (a + 1) * z == a * z + z
  {}

  lemma SumOfEights(a: nat, b: nat, c: nat)
    requires a % 8 == 0 && b % 8 == 0 && c % 8 == 0
    ensures (a + b) % 8 == 0 && (a + b + c) % 8 == 0
  {}

  lemma QuotientUnique(s: nat, z: nat, i: nat)
    requires z > 0
    requires i * z <= s < (i + 1) * z
    ensures s / z == i
  {
    var q := s / z;
    assert q * z <= s < (q + 1) * z;
    if q < i { MulMonotone(q + 1, i, z); }
    if i < q { MulMonotone(i + 1, q, z); }
  }

  lemma QuotientBounds(s: nat, z: nat)
    requires z > 0
    ensures (s / z) * z <= s < (s / z + 1) * z
    ensures s % z == s - (s / z) * z
  {}

  lemma EighthBracket(a: nat, p: nat, sector: nat)
    requires p > 0 && 8 * a <= sector < 8 * a + 8
    ensures (a / p) * (8 * p) <= sector < (a / p + 1) * (8 * p)
  {
    var q := a / p;
    QuotientBounds(a, p);
    EightTimes(q, p);
    EightTimes(q + 1, p);
  }

  lemma EightTimes(q: nat, p: nat)
    ensures q * (8 * p) == 8 * (q * p)
  {}

  /** Shifting by the block and then by the zone is division by the zone size. */
  lemma ShiftIsDivision(sector: nat, shift: nat)
    ensures ShiftedDown(sector, shift) == sector / ZoneSectors(shift)
  {
    var z := ZoneSectors(shift);
    EighthBracket(sector / 8, Pow2(shift), sector);
    QuotientUnique(sector, z, ShiftedDown(sector, shift));
  }

  /** Every sector below `count * z` lies in exactly one zone: the one the shifts compute. */
  lemma SectorInExactlyOneZone(sector: nat, shift: nat, count: nat)
    requires sector < count * ZoneSectors(shift)
    ensures
      var z := ZoneSectors(shift);
      var i := ShiftedDown(sector, shift);
      && i < count
      && i * z <= sector < (i + 1) * z
      && forall j: nat :: j * z <= sector < (j + 1) * z ==> j == i
  {
    var z := ZoneSectors(shift);
    var i := ShiftedDown(sector, shift);
    ShiftIsDivision(sector, shift);
    QuotientBounds(sector, z);
    if count <= i { MulMonotone(count, i, z); }
    forall j: nat | j * z <= sector < (j + 1) * z
      ensures j == i
    {
      QuotientUnique(sector, z, j);
    }
  }

  /** Truncating the zone index to 32 bits either changes nothing or leaves an offset so large
      that the size test of the map function refuses the request. */
  lemma TruncatedIndex(lba: nat, z: nat)
    requires z > 0
    ensures
      var i := Wrap32(lba / z);
      && i * z <= lba
      && (lba / z < TWO32 ==> i == lba / z && lba - i * z < z)
      && (lba / z >= TWO32 ==> lba - i * z >= TWO32 * z >= 4 * z)
  {
    var q := lba / z;
    var i := Wrap32(q);
    QuotientBounds(lba, z);
    MulMonotone(i, q, z);
    assert (q + 1) * z == q * z + z;
    if q >= TWO32 {
      assert q - i >= TWO32;
      MulMonotone(i + TWO32, q, z);
      assert (i + TWO32) * z == i * z + TWO32 * z;
      assert TWO32 * z >= 4 * z;
    }
  }

  /** Which sectors of zone `i` a request covers that starts at offset `off` of zone `j` and ends
      before the end of zone `j + 1`. */
  lemma CoverageByZone(z: nat, j: nat, off: nat, n: nat, i: nat, o: nat)
    requires o < z && off < z && off + n <= 2 * z
    ensures
      (j * z + off <= i * z + o < j * z + off + n) <==>
      ((i == j && off <= o < off + n) || (i == j + 1 && o + z < off + n))
  {
    assert (j + 1) * z == j * z + z;
    assert (j + 2) * z == j * z + 2 * z;
    if i < j {
      MulMonotone(i + 1, j, z);
      assert (i + 1) * z == i * z + z;
    } else if i > j + 1 {
      MulMonotone(j + 2, i, z);
    }
  }

  // ------------------------------------------------------------- zone starts

  /** First sector of zone `i`, which is also the end of the `i` zones before it. */
  function ZoneStart(z: nat, i: nat): nat { if i == 0 then 0 else ZoneStart(z, i - 1) + z }

  lemma {:induction false} ZoneStartIs(z: nat, i: nat)
    ensures ZoneStart(z, i) == i * z
  {
    if i == 0 {
    } else {
      ZoneStartIs(z, i - 1);
      Successor(i - 1, z);
    }
  }

  /** Every sector below the end of `count` zones lies in one of them. */
  lemma {:induction false} ZoneOfSector(z: nat, count: nat, s: nat) returns (j: nat)
    requires s < ZoneStart(z, count)
    ensures j < count && ZoneStart(z, j) <= s < ZoneStart(z, j) + z
  {
    if s < ZoneStart(z, count - 1) {
      j := ZoneOfSector(z, count - 1, s);
    } else {
      j := count - 1;
    }
  }

  lemma {:induction false} ZoneStartsApart(z: nat, j: nat, count: nat)
    requires j < count
    ensures ZoneStart(z, j) + z <= ZoneStart(z, count)
  {
    if j == count - 1 {
    } else {
      ZoneStartsApart(z, j, count - 1);
    }
  }

  lemma {:induction false} ZoneStartInBlocks(z: nat, i: nat)
    requires z % 8 == 0
    ensures ZoneStart(z, i) % 8 == 0
  {
    if i == 0 {
    } else {
      ZoneStartInBlocks(z, i - 1);
    }
  }

  // ------------------------------------------------------- powers of two

  /** The kernel's `is_power_of_2`. */
  predicate IsPowerOfTwo(n: nat) {
    n == 1 || (n > 0 && n % 2 == 0 && IsPowerOfTwo(n / 2))
  }

  /** The index found by halving until nothing is left. */
  function Log2(num: nat): nat {
    if num < 2 then 0 else 1 + Log2(num / 2)
  }

  /** The loop of `index_power_of_2`: it brackets its argument between two powers of two. */
  method IndexPowerOf2(num: u64) returns (index: nat)
    ensures index == Log2(num)
    ensures num == 0 ==> index == 0
    ensures num > 0 ==> Pow2(index) <= num < Pow2(index + 1)
  {
    index := 0;
    var rest: nat := num / 2;
    while rest != 0
      invariant Log2(num) == index + (if rest == 0 then 0 else 1 + Log2(rest))
      invariant num > 0 ==> rest * Pow2(index + 1) <= num < (rest + 1) * Pow2(index + 1)
      invariant num > 0 ==> Pow2(index) <= num
      invariant num == 0 ==> rest == 0 && index == 0
      decreases rest
    {
      HalvingStep(num, rest, index);
      index := index + 1;
      rest := rest / 2;
    }
  }

  lemma HalvingStep(num: nat, rest: nat, index: nat)
    requires rest >= 1
    requires rest * Pow2(index + 1) <= num < (rest + 1) * Pow2(index + 1)
    ensures (rest / 2) * Pow2(index + 2) <= num < (rest / 2 + 1) * Pow2(index + 2)
    ensures Pow2(index + 1) <= num
  {
    var p := Pow2(index + 1);
    assert Pow2(index + 2) == 2 * p;
    var h := rest / 2;
    assert (2 * h) * p == h * (2 * p);
    assert (2 * h + 2) * p == (h + 1) * (2 * p);
    MulMonotone(2 * h, rest, p);
    MulMonotone(rest + 1, 2 * h + 2, p);
    MulMonotone(1, rest, p);
  }

  lemma {:induction false} Log2OfPowerOfTwo(n: nat)
    requires IsPowerOfTwo(n)
    ensures Pow2(Log2(n)) == n
  {
    if n == 1 {
    } else {
      Log2OfPowerOfTwo(n / 2);
    }
  }

  lemma {:induction false} Pow2IsPowerOfTwo(k: nat)
    ensures IsPowerOfTwo(Pow2(k))
  {
    if k == 0 {
    } else {
      assert Pow2(k) / 2 == Pow2(k - 1);
      Pow2IsPowerOfTwo(k - 1);
    }
  }

  /** A zone size is accepted when it is a multiple of the block and a power of two. */
  predicate SizeAccepted(size: nat) {
    size % 8 == 0 && IsPowerOfTwo(size)
  }

  lemma EighthOfPowerOfTwo(size: nat)
    requires SizeAccepted(size)
    ensures size >= 8 && IsPowerOfTwo(size / 8) && size == 8 * (size / 8)
  {
    assert size > 1;
    assert size / 2 / 2 / 2 == size / 8;
    assert IsPowerOfTwo(size / 2) && size / 2 % 4 == 0;
    assert IsPowerOfTwo(size / 2 / 2);
  }

  /** 2^k for some k from 3 on. */
  ghost predicate WholeBlocksPower(size: nat) { exists k :: 3 <= k && size == Pow2(k) }

  /** Exactly these sizes are accepted. */
  lemma SizeAcceptedIff(size: nat)
    ensures SizeAccepted(size) <==> WholeBlocksPower(size)
  {
    if SizeAccepted(size) {
      Log2OfPowerOfTwo(size);
      EighthOfPowerOfTwo(size);
      assert Pow2(3) == 8;
      Pow2Order(Log2(size), 3);
      assert 3 <= Log2(size) && size == Pow2(Log2(size));
    }
    if k :| 3 <= k && size == Pow2(k) {
      Pow2IsPowerOfTwo(k);
      assert Pow2(k - 2) == 2 * Pow2(k - 3) && Pow2(k - 1) == 2 * Pow2(k - 2);
    }
  }

  /** Zone-size geometry: the shift computed from an accepted size names exactly that size, the
      zone count is the whole number of zones in the capacity, and loading recovers the shift. */
  lemma SizeGeometry(size: u32, capacity: nat)
    requires SizeAccepted(size)
    ensures
      var shift := Log2(size / 8);
      var count := ShiftedDown(capacity, shift);
      && ZoneSectors(shift) == size
      && shift <= ZONE_SIZE_SHIFT_MAX
      && count * size <= capacity < (count + 1) * size
  {
    var shift := Log2(size / 8);
    EighthOfPowerOfTwo(size);
    Log2OfPowerOfTwo(size / 8);
    ShiftIsDivision(capacity, shift);
    QuotientBounds(capacity, size);
    Pow2Values();
    Pow2Order(shift, 29);
    assert Pow2(29) == 2 * Pow2(28);
  }

  /** Loading recomputes the shift from the length stored with zone 0. */
  lemma StoredLengthGivesShift(shift: nat)
    ensures Log2(ZoneSectors(shift) / 8) == shift
  {
    assert ZoneSectors(shift) / 8 == Pow2(shift);
    Log2OfPow2(shift);
  }

  lemma {:induction false} Log2OfPow2(k: nat)
    ensures Log2(Pow2(k)) == k
  {
    if k == 0 {
    } else {
      assert Pow2(k) / 2 == Pow2(k - 1);
      Log2OfPow2(k - 1);
    }
  }
}
