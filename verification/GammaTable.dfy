/** The segmented 16-to-8-bit gamma table of png.c. The gamma correction itself is
    any function into 16 bits; the table is the step function of its boundaries. */
module GammaTable {
  import opened Arithmetic

  /** The number of sub-tables, 1 << (8 - shift) */
  function Tables(shift: nat): (n: nat)
    requires shift <= 8
    ensures n > 0
  {
    Pow2Positive(8 - shift);
    Pow2(8 - shift)
  }

  /** The largest input value, (1 << (16 - shift)) - 1 */
  function MaxInput(shift: nat): nat
    requires shift <= 8
  {
    256 * Tables(shift) - 1
  }

  /** The first slot that is not below the boundary between outputs i and i+1. */
  function Bound(correct: uint16 -> uint16, shift: nat, i: nat): nat
    requires shift <= 8 && i < 255
  {
    (correct(i * 257 + 128) * MaxInput(shift) + 32768) / 65535 + 1
  }

  /** The least output, from i on, whose boundary is above slot v, or 255. */
  function Least(correct: uint16 -> uint16, shift: nat, v: nat, i: nat): nat
    requires shift <= 8 && i <= 255
    decreases 255 - i
  {
    if i == 255 || Bound(correct, shift, i) > v then i else Least(correct, shift, v, i + 1)
  }

  lemma Sizes(shift: nat)
    requires shift <= 8
    ensures 1 <= Tables(shift) <= 256
    ensures MaxInput(shift) + 1 == 256 * Tables(shift) == Pow2(16 - shift)
    ensures Tables(shift) * Pow2(shift) == 256
  {
    assert Pow2(8) == 256;
    Pow2Positive(8 - shift);
    Pow2Positive(shift);
    Pow2Add(8 - shift, shift);
    Pow2Add(8 - shift, 8);
    MulMono(Pow2(8 - shift), Pow2(8 - shift), 1, Pow2(shift));
  }

  /** The rounding of a boundary neither wraps in 32 bits nor leaves the table. */
  lemma BoundFits(correct: uint16 -> uint16, shift: nat, i: nat)
    requires shift <= 8 && i < 255
    ensures correct(i * 257 + 128) * MaxInput(shift) + 32768 < TWO_32
    ensures 1 <= Bound(correct, shift, i) <= MaxInput(shift) + 1
  {
    Sizes(shift);
    var c, m := correct(i * 257 + 128), MaxInput(shift);
    MulMono(c, 65535, m, m);
  }

  /** Slot v is not above the rounded boundary between the outputs i and i + 1. */
  predicate NotAbove(correct: uint16 -> uint16, max: int, v: nat, i: nat)
    requires i < 255
  {
    65535 * v <= correct(257 * i + 128) * max + 32768
  }

  /** The boundary of output i is the first slot above the corrected midpoint, scaled to the inputs
      and rounded to the nearest slot. */
  lemma BoundIff(correct: uint16 -> uint16, shift: nat, v: nat, i: nat)
    requires shift <= 8 && i < 255
    ensures v < Bound(correct, shift, i) <==> NotAbove(correct, MaxInput(shift), v, i)
  {
    hide MaxInput;
    assert i * 257 + 128 == 257 * i + 128;
    FloorIff(correct(257 * i + 128) * MaxInput(shift) + 32768, v);
  }

  lemma FloorIff(x: nat, v: nat)
    ensures v < x / 65535 + 1 <==> 65535 * v <= x
  {
  }

  /** `out` is 257 times the least output whose boundary slot v is not above, or 65535. */
  predicate IsStep(correct: uint16 -> uint16, max: int, v: nat, out: int) {
    && 0 <= out <= 65535 && out % 257 == 0
    && var i := out / 257;
    && (i < 255 ==> NotAbove(correct, max, v, i))
    && forall k: nat :: k < i && k < 255 ==> !NotAbove(correct, max, v, k)
  }

  lemma {:induction false} LeastBounds(correct: uint16 -> uint16, shift: nat, v: nat, i: nat)
    requires shift <= 8 && i <= 255
    ensures var n := Least(correct, shift, v, i);
      && i <= n <= 255 && (n < 255 ==> Bound(correct, shift, n) > v)
      && forall k :: i <= k < n ==> Bound(correct, shift, k) <= v
    decreases 255 - i
  {
    if i < 255 && Bound(correct, shift, i) <= v {
      LeastBounds(correct, shift, v, i + 1);
    }
  }

  lemma StepIs(correct: uint16 -> uint16, shift: nat, v: nat)
    requires shift <= 8
    ensures IsStep(correct, MaxInput(shift), v, Step(correct, shift, v))
  {
    hide Bound, Least, NotAbove, MaxInput;
    LeastBounds(correct, shift, v, 0);
    var n := Least(correct, shift, v, 0);
    if n < 255 {
      BoundIff(correct, shift, v, n);
    }
    forall k: nat | k < n && k < 255
      ensures !NotAbove(correct, MaxInput(shift), v, k)
    {
      BoundIff(correct, shift, v, k);
    }
    assert Step(correct, shift, v) == 257 * n;
    DivUnique(257 * n, 257, n, 0);
  }

  lemma {:induction false} LeastIs(correct: uint16 -> uint16, shift: nat, v: nat, i: nat, k: nat)
    requires shift <= 8 && i <= k <= 255
    requires forall j :: i <= j < k ==> Bound(correct, shift, j) <= v
    requires k < 255 ==> Bound(correct, shift, k) > v
    ensures Least(correct, shift, v, i) == k
    decreases k - i
  {
    if i < k {
      LeastIs(correct, shift, v, i + 1, k);
    }
  }

  lemma SameSlot(num: nat, v: nat, w: nat)
    requires num > 0 && v % num == w % num && v / num == w / num
    ensures v == w
  {
    DivMod(v, num);
    DivMod(w, num);
  }

  /** The slots so far: slot v is entry v / num of sub-table v % num. */
  ghost predicate Filled(table: array2<uint16>, num: nat, slots: seq<nat>)
    reads table
  {
    && 0 < num == table.Length0 && table.Length1 == 256
    && forall v :: 0 <= v < |slots| ==> v / num < 256 && table[v % num, v / num] == slots[v]
  }

  /** table[last & (0xff >> shift)][last >> (8 - shift)] = out */
  method WriteSlot(table: array2<uint16>, num: nat, last: nat, out: uint16, ghost slots: seq<nat>)
    requires Filled(table, num, slots) && |slots| == last < 256 * num
    modifies table
    ensures Filled(table, num, slots + [out])
  {
    DivMod(last, num);
    if last / num >= 256 {
      MulMono(256, last / num, num, num);
    }
    forall v | 0 <= v < last
      ensures v % num != last % num || v / num != last / num
    {
      if v % num == last % num && v / num == last / num {
        SameSlot(num, v, last);
      }
    }
    table[last % num, last / num] := out;
  }

  /** The 16-bit output for slot v. */
  function Step(correct: uint16 -> uint16, shift: nat, v: nat): nat
    requires shift <= 8
  {
    257 * Least(correct, shift, v, 0)
  }

  /** The first n slots. */
  function Steps(correct: uint16 -> uint16, shift: nat, n: nat): seq<nat>
    requires shift <= 8
  {
    if n == 0 then [] else Steps(correct, shift, n - 1) + [Step(correct, shift, n - 1)]
  }

  lemma {:induction false} StepsAt(correct: uint16 -> uint16, shift: nat, n: nat, v: nat)
    requires shift <= 8 && v < n
    ensures |Steps(correct, shift, n)| == n && Steps(correct, shift, n)[v] == Step(correct, shift, v)
  {
    if n > 1 {
      StepsAt(correct, shift, n - 1, if v < n - 1 then v else 0);
    }
  }

  lemma {:induction false} StepsLength(correct: uint16 -> uint16, shift: nat, n: nat)
    requires shift <= 8
    ensures |Steps(correct, shift, n)| == n
  {
    if n > 0 {
      StepsLength(correct, shift, n - 1);
    }
  }

  /** All boundaries below i have been passed. */
  predicate Passed(correct: uint16 -> uint16, shift: nat, i: nat, last: nat)
    requires shift <= 8 && i <= 255
  {
    forall j :: 0 <= j < i ==> Bound(correct, shift, j) <= last
  }

  /** One slot of output i (255 for the final entries). */
  method FillSlot(correct: uint16 -> uint16, shift: nat, table: array2<uint16>, last: nat, i: nat)
    requires shift <= 8 && i <= 255 && Passed(correct, shift, i, last)
    requires last <= MaxInput(shift) && (i < 255 ==> last < Bound(correct, shift, i))
    requires Filled(table, Tables(shift), Steps(correct, shift, last))
    modifies table
    ensures Filled(table, Tables(shift), Steps(correct, shift, last + 1))
  {
    hide Filled, Least, Bound, Pow2;
    StepsLength(correct, shift, last);
    LeastIs(correct, shift, last, 0, i);
    WriteSlot(table, Tables(shift), last, i * 257, Steps(correct, shift, last));
  }

  /** The inner loop: one output up to its boundary (255: the final entries). */
  method FillTo(correct: uint16 -> uint16, shift: nat, table: array2<uint16>, start: nat, i: nat, bound: nat)
    returns (last: nat)
    requires shift <= 8 && i <= 255 && Passed(correct, shift, i, start)
    requires start <= MaxInput(shift) + 1
    requires bound == if i < 255 then Bound(correct, shift, i) else MaxInput(shift) + 1
    requires bound <= MaxInput(shift) + 1
    requires Filled(table, Tables(shift), Steps(correct, shift, start))
    modifies table
    ensures last == (if start < bound then bound else start)
    ensures Filled(table, Tables(shift), Steps(correct, shift, last))
    ensures Passed(correct, shift, i, last) && (i < 255 ==> Passed(correct, shift, i + 1, last))
  {
    hide Filled, Steps, Bound, Pow2;
    last := start;
    while last < bound
      invariant start <= last && (last == start || last <= bound)
      invariant Passed(correct, shift, i, last)
      invariant Filled(table, Tables(shift), Steps(correct, shift, last))
    {
      FillSlot(correct, shift, table, last, i);
      last := last + 1;
    }
  }

  /** png_build_16to8_table: slot v holds the least output whose boundary is above v,
      in 16 bits, and there are exactly as many writes as slots. */
  method Build16to8Table(correct: uint16 -> uint16, shift: nat)
    returns (table: array2<uint16>, writes: nat)
    requires shift <= 8
    ensures fresh(table) && writes == MaxInput(shift) + 1
    ensures Filled(table, Tables(shift), Steps(correct, shift, MaxInput(shift) + 1))
    ensures table.Length0 == Tables(shift) && table.Length1 == 256
    ensures forall iv: uint16 :: LookedUp(table, shift, iv) == Some(Step(correct, shift, Slot(iv, shift)))
    ensures forall iv: uint16 :: LookedUp(table, shift, iv).Some?
              && IsStep(correct, Pow2(16 - shift) - 1, Slot(iv, shift), LookedUp(table, shift, iv).value)
  {
    hide Pow2, Least, Bound, Passed, Steps, LookedUp, Slot, IsStep, Step;
    table := new uint16[Tables(shift), 256]((_, _) => 0);
    NothingPassed(correct, shift);
    writes := 0;
    var i := 0;
    while i < 255
      invariant 0 <= i <= 255 && writes <= MaxInput(shift) + 1
      invariant Passed(correct, shift, i, writes)
      invariant Filled(table, Tables(shift), Steps(correct, shift, writes))
    {
      var bound := RoundBound(correct, shift, i);
      writes := FillTo(correct, shift, table, writes, i, bound);
      i := i + 1;
    }
    writes := FillTo(correct, shift, table, writes, 255, MaxInput(shift) + 1);
    AllLookups(correct, shift, table);
  }

  /** Every lookup in a filled table. */
  lemma AllLookups(correct: uint16 -> uint16, shift: nat, table: array2<uint16>)
    requires shift <= 8 && Filled(table, Tables(shift), Steps(correct, shift, MaxInput(shift) + 1))
    ensures forall iv: uint16 :: LookedUp(table, shift, iv) == Some(Step(correct, shift, Slot(iv, shift)))
    ensures forall iv: uint16 :: LookedUp(table, shift, iv).Some?
              && IsStep(correct, Pow2(16 - shift) - 1, Slot(iv, shift), LookedUp(table, shift, iv).value)
  {
    hide Pow2, Least, Filled, Steps, LookedUp, Slot, IsStep, Step;
    Sizes(shift);
    forall iv: uint16
      ensures LookedUp(table, shift, iv) == Some(Step(correct, shift, Slot(iv, shift)))
      ensures IsStep(correct, Pow2(16 - shift) - 1, Slot(iv, shift), Step(correct, shift, Slot(iv, shift)))
    {
      LookupFilled(correct, shift, table, iv);
      StepIs(correct, shift, Slot(iv, shift));
    }
  }

  /** iv >> shift */
  function Slot(iv: uint16, shift: nat): nat {
    Pow2Positive(shift);
    DivShrinks(iv, Pow2(shift));
    iv / Pow2(shift)
  }

  /** table[(iv & 0xff) >> shift][iv >> 8], None outside the table. */
  function LookedUp(table: array2<uint16>, shift: nat, iv: uint16): Option<int>
    reads table
  {
    var low, high := Slot(iv % 256, shift), iv / 256;
    if low < table.Length0 && high < table.Length1 then Some(table[low, high]) else None
  }

  /** A filled table answers every lookup with the step function. */
  lemma LookupFilled(correct: uint16 -> uint16, shift: nat, table: array2<uint16>, iv: uint16)
    requires shift <= 8 && Filled(table, Tables(shift), Steps(correct, shift, MaxInput(shift) + 1))
    ensures LookedUp(table, shift, iv) == Some(Step(correct, shift, Slot(iv, shift)))
  {
    hide Steps, Step, Pow2;
    LookupReadsSlot(iv, shift);
    StepsAt(correct, shift, MaxInput(shift) + 1, Slot(iv, shift));
  }

  lemma NothingPassed(correct: uint16 -> uint16, shift: nat)
    requires shift <= 8
    ensures Passed(correct, shift, 0, 0) && Steps(correct, shift, 0) == []
  {
  }

  /** The boundary of output i, computed in 32-bit words. */
  method RoundBound(correct: uint16 -> uint16, shift: nat, i: nat) returns (bound: nat)
    requires shift <= 8 && i < 255
    ensures bound == Bound(correct, shift, i) <= MaxInput(shift) + 1
  {
    hide MaxInput;
    BoundFits(correct, shift, i);
    var out: uint16 := i * 257;
    var c: int := correct(out + 128);
    bound := RoundWord(c * MaxInput(shift) + 32768);
  }

  /** (x / 65535) + 1 in 32-bit words */
  method RoundWord(scaled: nat) returns (bound: nat)
    requires scaled < TWO_32
    ensures bound == scaled / 65535 + 1
  {
    bound := WrapU32(WrapU32(scaled) / 65535 + 1);
  }

  // ---------------------------------------------------------------- properties

  lemma {:induction false} LeastMonotone(correct: uint16 -> uint16, shift: nat, v: nat, w: nat, i: nat)
    requires shift <= 8 && v <= w && i <= 255
    ensures Least(correct, shift, v, i) <= Least(correct, shift, w, i) <= 255
    decreases 255 - i
  {
    if i < 255 {
      LeastMonotone(correct, shift, v, w, i + 1);
      LeastFrom(correct, shift, w, i + 1);
    }
  }

  lemma {:induction false} LeastFrom(correct: uint16 -> uint16, shift: nat, v: nat, i: nat)
    requires shift <= 8 && i <= 255
    ensures i <= Least(correct, shift, v, i)
    decreases 255 - i
  {
    if i < 255 {
      LeastFrom(correct, shift, v, i + 1);
    }
  }

  /** The table never decreases, whatever the boundaries are. */
  lemma TableMonotone(correct: uint16 -> uint16, shift: nat, v: nat, w: nat)
    requires shift <= 8 && v <= w
    ensures Step(correct, shift, v) <= Step(correct, shift, w)
  {
    LeastMonotone(correct, shift, v, w, 0);
  }

  /** The lookup table[(iv & 0xff) >> shift][iv >> 8] reads slot iv >> shift. */
  lemma LookupReadsSlot(iv: uint16, shift: nat)
    requires shift <= 8
    ensures Pow2(shift) > 0 && Tables(shift) > 0
    ensures var v := iv / Pow2(shift);
      && v <= MaxInput(shift)
      && v % Tables(shift) == (iv % 256) / Pow2(shift)
      && v / Tables(shift) == iv / 256
  {
    Sizes(shift);
    Pow2Positive(shift);
    SplitIndex(iv, Pow2(shift), Tables(shift));
  }

  lemma SplitIndex(iv: uint16, p: nat, num: nat)
    requires p > 0 && num > 0 && num * p == 256
    ensures var v := iv / p;
      v < 256 * num && v % num == (iv % 256) / p && v / num == iv / 256
  {
    var a, b := iv / 256, iv % 256;
    var c, d := b / p, b % p;
    DivMod(b, p);
    CellBelow(c, d, p, num);
    Regroup(c, a, num, p);
    DivUnique(iv, p, a * num + c, d);
    DivUnique(a * num + c, num, a, c);
    MulMono(a, 255, num, num);
  }

  lemma CellBelow(c: nat, d: nat, p: nat, num: nat)
    requires c * p + d < num * p
    ensures c < num
  {
    if c >= num {
      MulMono(num, c, p, p);
    }
  }
}
