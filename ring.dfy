/**
 * Geometry of one log and the unsigned-char index arithmetic that ee-logs.h
 * uses to step its cursors around the ring.
 */
module Ring {

  /** LOG_FLAG_MASK: bit 7 of the last byte of a record is the service flag. */
  const FLAG_MASK: bv8 := 0x80

  /** The arguments of DECLARE_LOGGER / LOGGER: RECS, REC_SIZE and START_ADDR. */
  datatype Geometry = Geometry(recs: nat, recSize: nat, start: nat)

  /**
   * The limits the header states for RECS and REC_SIZE, and a ring that lies
   * inside the 16-bit `unsigned int` address space, so no address computed by
   * the logger wraps around.
   */
  predicate ValidGeometry(g: Geometry)
  {
    && 2 <= g.recs <= 255
    && 2 <= g.recSize <= 255
    && RingEnd(g) <= 0x1_0000
  }

  /**
   * n * size, the room taken by n records, written as repeated addition so
   * that proofs about addresses stay within linear arithmetic.
   */
  function Span(n: nat, size: nat): nat
  {
    if n == 0 then 0 else Span(n - 1, size) + size
  }

  /** Span is the product it stands for. */
  lemma {:induction false} SpanIsProduct(n: nat, size: nat)
    ensures Span(n, size) == n * size
  {
    if n > 0 {
      SpanIsProduct(n - 1, size);
      assert n * size == (n - 1) * size + size;
    }
  }

  /** More records take at least as much room. */
  lemma {:induction false} SpanMono(a: nat, b: nat, size: nat)
    requires a <= b
    ensures Span(a, size) <= Span(b, size)
  {
    if a < b {
      SpanMono(a, b - 1, size);
    }
  }

  /** One past the last byte of the ring: `start_addr + recs * rec_size`. */
  function RingEnd(g: Geometry): nat
  {
    g.start + Span(g.recs, g.recSize)
  }

  /** `%` leaves a value below the modulus alone. */
  lemma ModBelow(x: int, m: int)
    requires 0 <= x < m
    ensures x % m == x
  {
  }

  /** `%` takes one modulus off a value between m and 2m. */
  lemma ModOnce(x: int, m: int)
    requires m <= x < 2 * m
    ensures x % m == x - m
  {
  }

  /** `%` is Euclidean: a value between -m and 0 gains one modulus. */
  lemma ModNeg(x: int, m: int)
    requires -m <= x < 0
    ensures x % m == x + m
  {
  }

  /** `%` on a value below twice the modulus, without `%`. */
  lemma ModSmall(x: int, m: int)
    requires 0 < m
    ensures 0 <= x < 2 * m ==> x % m == (if x < m then x else x - m)
  {
    if 0 <= x < 2 * m {
      if x < m { ModBelow(x, m); } else { ModOnce(x, m); }
    }
  }

  /** The successor modulo m, without `%`. */
  lemma ModSucc(r: int, m: int)
    requires 0 < m
    ensures 0 <= r < m ==> (r + 1) % m == (if r + 1 < m then r + 1 else 0)
  {
    if 0 <= r < m {
      if r + 1 < m { ModBelow(r + 1, m); } else { ModOnce(r + 1, m); }
    }
  }

  /** Address of record r: `start_addr + r * rec_size`; the whole record lies inside the ring. */
  function Address(g: Geometry, r: nat): (a: nat)
    requires ValidGeometry(g) && r < g.recs
    ensures g.start <= a && a + g.recSize <= RingEnd(g)
  {
    SpanMono(r + 1, g.recs, g.recSize);
    g.start + Span(r, g.recSize)
  }

  /** Two different records occupy disjoint byte ranges. */
  lemma SlotsDisjoint(g: Geometry, j: nat, r: nat)
    requires ValidGeometry(g) && j < g.recs && r < g.recs && j != r
    ensures Address(g, j) + g.recSize <= Address(g, r) || Address(g, r) + g.recSize <= Address(g, j)
  {
    if j < r {
      SpanMono(j + 1, r, g.recSize);
    } else {
      SpanMono(r + 1, j, g.recSize);
    }
  }

  /**
   * The unsigned-char value of `r -= (recs)-1`: zero exactly when r is the
   * last record, which is when the ring wraps.
   */
  function MinusLast(r: nat, recs: nat): (d: nat)
    requires r < 256 && 2 <= recs <= 255
    ensures d < 256
    ensures r < recs ==> (d == 0 <==> r == recs - 1)
  {
    (r - (recs - 1)) % 256
  }

  /**
   * `if (r -= (recs)-1) r += (recs);` on an unsigned char: the record after r
   * around the ring.
   */
  function StepUp(r: nat, recs: nat): (n: nat)
    requires r < 256 && 2 <= recs <= 255
    ensures n < 256
    ensures r < recs ==> n == if r == recs - 1 then 0 else r + 1
  {
    var d := MinusLast(r, recs);
    if d != 0 then (d + recs) % 256 else d
  }

  /**
   * `if (r) --r; else r = (recs)-1;`: the record before r around the ring
   * (Dafny's `%` is Euclidean, so `(r - 1) % recs` is never negative).
   */
  function StepDown(r: nat, recs: nat): (n: nat)
    requires r < 256 && 2 <= recs <= 255
    ensures n < 256
    ensures r < recs ==> n < recs && StepUp(n, recs) == r
  {
    if r != 0 then r - 1 else recs - 1
  }

  /** `(i == (recs)-1) ? 0 : i + 1`: the writer's own way to step the read cursor forward. */
  function WrapInc(i: nat, recs: nat): (n: nat)
    requires 2 <= recs <= 255
    ensures i < recs ==> n == StepUp(i, recs)
  {
    if i == recs - 1 then 0 else i + 1
  }

  /** StepUp is the successor modulo recs. */
  lemma StepUpIsSuccessor(r: nat, recs: nat)
    requires r < recs && 2 <= recs <= 255
    ensures StepUp(r, recs) == (r + 1) % recs
  {
    ModSucc(r, recs);
  }

  /** StepDown is the predecessor modulo recs. */
  lemma StepDownIsPredecessor(r: nat, recs: nat)
    requires r < recs && 2 <= recs <= 255
    ensures StepDown(r, recs) == (r - 1) % recs
  {
    if r == 0 { ModNeg(r - 1, recs); } else { ModBelow(r - 1, recs); }
  }
}
