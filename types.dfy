/**
 * Basic vocabulary of the rainflow counter: sample tuples, session states,
 * counting flags and the two pure helpers every other part uses, the
 * value difference with its direction and the class quantization.
 *
 * Sample values are integers: a fixed-point reading of the floating-point
 * values of the original. Only `<`, `>`, `==`, subtraction and the
 * quantization are applied to them outside the damage formula.
 */
module RfcTypes {

  datatype Option<T> = None | Some(value: T)

  /** One sample or turning point: its value, its class and its 1-based stream position. */
  datatype Tuple = Tuple(value: int, cls: nat, pos: nat)

  /** The zero-initialised tuple the context uses for unset extrema and margins. */
  const Nil: Tuple := Tuple(0, 0, 0)

  /** Session states, in the order in which the source compares them. */
  datatype State = Init0 | Init | Busy | BusyInterim | Finalize | Finished | Error

  function Rank(s: State): (r: nat)
    ensures r <= 6
    ensures s == Init0 <==> r == 0
    ensures s == Error <==> r == 6
  {
    match s
    case Init0 => 0
    case Init => 1
    case Busy => 2
    case BusyInterim => 3
    case Finalize => 4
    case Finished => 5
    case Error => 6
  }

  /** Which aggregates a closed cycle updates, and whether margins are enforced. */
  datatype Flags = Flags(countMatrix: bool, countRp: bool, countLcUp: bool, countLcDn: bool,
                         enforceMargin: bool)

  /** The flags `RFC_init` installs: every aggregate counted, no margin enforcement. */
  const CountAll: Flags := Flags(true, true, true, true, false)

  datatype CountingMethod = NoCounting | FourPoint | Hcm

  datatype ErrorKind = NoError | InvalidArgument | OutOfMemory

  /** The residue strategies `RFC_finalize` dispatches on; `ResUnknown` is any other code. */
  datatype ResidualMethod = ResNone | ResIgnore | ResDiscard | ResHalfCycles | ResFullCycles
                          | ResRepeated | ResUnknown

  /** Counter increment of one full cycle and of one half cycle. */
  const FULL_CYCLE_INCREMENT: nat := 2
  const HALF_CYCLE_INCREMENT: nat := 1

  /** Largest counter value to which an increment may still be added (32-bit counters). */
  const COUNTS_LIMIT: nat := 0xFFFF_FFFF - FULL_CYCLE_INCREMENT

  const MAX_CLASS_COUNT: nat := 512

  /** Magnitude and direction of the step from one value to another. */
  datatype Delta = Delta(magnitude: nat, sign: int)

  /**
   * `value_delta`: the absolute difference and the direction of `to - from`;
   * a step of zero counts as rising.
   */
  function ValueDelta(from: int, to: int): (d: Delta)
    ensures d.sign == 1 || d.sign == -1
    ensures d.sign == -1 <==> to < from
    ensures d.sign * d.magnitude == to - from
  {
    if to - from < 0 then Delta(from - to, -1) else Delta(to - from, 1)
  }

  /**
   * `QUANTIZE`: the class of a value at or above the offset, i.e. the index
   * of the width-sized bucket above the offset that holds it.
   */
  function Quantize(offset: int, width: int, v: int): (c: nat)
    requires width > 0 && v >= offset
    ensures c * width <= v - offset < c * width + width
  {
    (v - offset) / width
  }

  /** A class index clamped into `[0, count-1]`, as the aggregator clamps it. */
  function Clamp(c: nat, count: nat): (r: nat)
    requires count >= 1
    ensures r < count
    ensures r <= c
    ensures c < count ==> r == c
  {
    if c >= count then count - 1 else c
  }

  function Min(a: int, b: int): int { if a <= b then a else b }
  function Max(a: int, b: int): int { if a <= b then b else a }
  function Dist(a: nat, b: nat): nat { if a <= b then b - a else a - b }
  function Abs(a: int): nat { if a < 0 then -a else a }

  /** Multiplying by a non-negative width keeps the order of two naturals. */
  lemma {:induction false} MulMonotone(a: nat, b: nat, width: nat)
    requires a <= b
    ensures a * width <= b * width
    decreases b - a
  {
    if a < b {
      MulMonotone(a, b - 1, width);
      assert (b - 1) * width + width == b * width;
    }
  }

  /** Quantization never maps a larger value to a smaller class. */
  lemma QuantizeMonotone(offset: int, width: int, v: int, w: int)
    requires width > 0 && offset <= v <= w
    ensures Quantize(offset, width, v) <= Quantize(offset, width, w)
  {
    var cv, cw := Quantize(offset, width, v), Quantize(offset, width, w);
    if cv > cw {
      MulMonotone(cw + 1, cv, width);
      assert false;
    }
  }

  /** Every value in the k-th width-sized bucket above the offset has class k. */
  lemma QuantizeBucket(offset: int, width: int, k: nat, v: int)
    requires width > 0 && offset + k * width <= v < offset + k * width + width
    ensures Quantize(offset, width, v) == k
  {
    var c := Quantize(offset, width, v);
    if c < k {
      MulMonotone(c + 1, k, width);
      assert false;
    } else if c > k {
      MulMonotone(k + 1, c, width);
      assert false;
    }
  }
}
