/** The geometry of the timing wheel: five wheels whose slots are 1, 2^8, 2^14, 2^20 and 2^26 ticks wide. */
module WheelLayout {
  import opened Common
  import opened Division

  const TICK_LEN: nat := 25              // milliseconds a tick
  const WHEEL_NUM: nat := 5
  const WHEEL_BIT: seq<nat> := [8, 6, 6, 6, 5]

  function Millis(ticks: int): int { TICK_LEN * ticks }

  function TicksIn(milliseconds: nat): nat { milliseconds / TICK_LEN }

  function PartTick(milliseconds: nat): nat { milliseconds % TICK_LEN }

  function Pow2(n: nat): (p: nat)
    ensures p > 0
  {
    if n == 0 then 1 else 2 * Pow2(n - 1)
  }

  function SumBits(n: nat): nat
    requires n <= WHEEL_NUM
  {
    if n == 0 then 0 else SumBits(n - 1) + WHEEL_BIT[n - 1]
  }

  /** How many slots wheel l has. */
  function Size(l: nat): (size: nat)
    requires l < WHEEL_NUM
    ensures size > 1
  {
    if l == 0 then 256 else if l < 4 then 64 else 32
  }

  /** How many ticks one slot of wheel l lasts. */
  function SlotTicks(l: nat): (ticks: nat)
    requires l < WHEEL_NUM
    ensures ticks > 0
  {
    match l
    case 0 => 1
    case 1 => 0x100
    case 2 => 0x4000
    case 3 => 0x10_0000
    case _ => 0x400_0000
  }

  /** How many ticks a whole turn of wheel l lasts. */
  function Cap(l: nat): nat
    requires l < WHEEL_NUM
  {
    match l
    case 0 => 0x100
    case 1 => 0x4000
    case 2 => 0x10_0000
    case 3 => 0x400_0000
    case _ => 0x8000_0000
  }

  lemma PowersOfTwo()
    ensures Pow2(5) == 0x20 && Pow2(6) == 0x40 && Pow2(8) == 0x100 && Pow2(14) == 0x4000
    ensures Pow2(20) == 0x10_0000 && Pow2(26) == 0x400_0000 && Pow2(31) == 0x8000_0000
  {
  }

  /** The constants above are the shifts that the constructor of the wheel computes from WHEEL_BIT; the capacities are
      mixed radix (a turn of one wheel is a slot of the next) and stay below 2^32. */
  lemma LayoutFromBits(l: nat)
    requires l < WHEEL_NUM
    ensures Size(l) == Pow2(WHEEL_BIT[l])
    ensures Cap(l) == Pow2(SumBits(l + 1)) == Size(l) * SlotTicks(l) < UINT32
    ensures SlotTicks(l) == Pow2(SumBits(l))
    ensures l + 1 < WHEEL_NUM ==> SlotTicks(l + 1) == Cap(l)
  {
    PowersOfTwo();
    assert SumBits(1) == 8 && SumBits(2) == 14 && SumBits(3) == 20 && SumBits(4) == 26 && SumBits(5) == 31;
  }

  /** The finest wheel that can hold a timer due in that many ticks. */
  function LevelOf(tickCnt: nat): (l: nat)
    requires tickCnt < Cap(WHEEL_NUM - 1)
    ensures l < WHEEL_NUM && tickCnt < Cap(l)
    ensures forall j | 0 <= j < l :: Cap(j) <= tickCnt
  {
    if tickCnt < Cap(0) then 0
    else if tickCnt < Cap(1) then 1
    else if tickCnt < Cap(2) then 2
    else if tickCnt < Cap(3) then 3
    else 4
  }

  /** Every uint32 delay finds a wheel. */
  lemma EveryDelayFits(delay: nat)
    requires delay < UINT32
    ensures TicksIn(delay) < Cap(WHEEL_NUM - 1)
  {
  }

  /** Slots from position d forward to slot i, around the wheel. */
  function Offset(i: nat, d: nat, size: nat): (o: nat)
    requires i < size && d < size
    ensures o < size && (d + o) % size == i
  {
    if i >= d then i - d else
      assert (d + (i - d + size)) == i + 1 * size;
      i - d + size
  }

  // ----- counting ticks in the mixed radix of the wheels -----

  lemma DivDiv(t: nat, a: nat, b: nat)
    requires a > 0 && b > 0
    ensures a * b > 0
    ensures t / (a * b) == t / a / b
    ensures t % (a * b) == t / a % b * a + t % a
  {
    var q, r := t / a, t % a;
    var q1, q2 := q / b, q % b;
    Parts(t, a);
    Parts(q, b);
    TwoDigits(q, q1, q2, r, a, b);
    DivModUnique(t, a * b, q1, q2 * a + r);
  }

  lemma TwoDigits(q: nat, q1: nat, q2: nat, r: nat, a: nat, b: nat)
    requires r < a && q2 < b && q == q1 * b + q2
    ensures q * a + r == q1 * (a * b) + (q2 * a + r) && 0 <= q2 * a + r < a * b
  {
    assert q * a == q1 * b * a + q2 * a;
    TimesMonotone(q2, b - 1, a);
    assert (b - 1) * a == b * a - a;
  }

  lemma SlotsNest(t: nat, l: nat)
    requires l + 1 < WHEEL_NUM
    ensures t % SlotTicks(l + 1) == 0 <==> t % SlotTicks(l) == 0 && (t / SlotTicks(l)) % Size(l) == 0
    ensures t / SlotTicks(l + 1) == t / SlotTicks(l) / Size(l)
  {
    LayoutFromBits(l);
    DivDiv(t, SlotTicks(l), Size(l));
  }

  lemma WholeSlot(t: nat, l: nat)
    requires t > 0 && l < WHEEL_NUM && t % SlotTicks(l) == 0
    ensures t / SlotTicks(l) == (t - 1) / SlotTicks(l) + 1
  {
  }

  lemma {:induction false} PartSlots(t: nat, l: nat, j: nat)
    requires t > 0 && l <= j < WHEEL_NUM && t % SlotTicks(l) != 0
    ensures t % SlotTicks(j) != 0 && t / SlotTicks(j) == (t - 1) / SlotTicks(j)
    decreases j - l
  {
    hide SlotTicks, Size;
    if j == l {
      DivModUnique(t - 1, SlotTicks(l), t / SlotTicks(l), t % SlotTicks(l) - 1);
    } else {
      PartSlots(t, l, j - 1);
      SlotsNest(t, j - 1);
      SlotsNest(t - 1, j - 1);
    }
  }

  lemma DivMulAtMost(t: nat, d: nat)
    requires d > 0
    ensures t / d * d <= t
  {
  }

  lemma NextDigit(c: nat, size: nat)
    requires size > 1
    ensures (c + 1) % size == if c % size + 1 >= size then 0 else c % size + 1
  {
    var q, r := c / size, c % size;
    if r + 1 >= size {
      assert (q + 1) * size == q * size + size;
      DivModUnique(c + 1, size, q + 1, 0);
    } else {
      DivModUnique(c + 1, size, q, r + 1);
    }
  }
}
