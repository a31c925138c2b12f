/** Index arithmetic of the two circular buffers of the JTAG UART driver.

    A byte with running number k (0 for the first byte ever put into a ring) lives in
    slot k % len.  The driver only keeps slot numbers; the lemmas below say when slot
    numbers determine the running numbers they stand for. */
module UartRing {
  import opened Arithmetic

  type Byte = b: int | 0 <= b < 256

  /** The slot of the byte with running number k. */
  function Slot(k: nat, len: nat): (slot: nat)
    requires len > 0
    ensures slot < len
  {
    k % len
  }

  /** How the driver moves an index n slots on. */
  function Advance(i: nat, n: nat, len: nat): (slot: nat)
    requires len > 0
    ensures slot < len
  {
    (i + n) % len
  }

  /** What a ring holds between the two indices: slots from `out` up to `in_`, wrapping. */
  function Contents<T>(buf: seq<T>, out: nat, in_: nat): seq<T>
    requires out < |buf| && in_ < |buf|
  {
    if out <= in_ then buf[out..in_] else buf[out..] + buf[..in_]
  }

  /** The contiguous room that write() sees after taking a snapshot of both indices. */
  function WriteRun(len: nat, in_: nat, out: nat): nat
    requires in_ < len && out < len
  {
    if in_ < out then out - 1 - in_
    else if out > 0 then len - in_
    else len - 1 - in_
  }

  /** The contiguous data that read() sees after taking a snapshot of both indices. */
  function ReadRun(len: nat, in_: nat, out: nat): nat
    requires in_ < len && out < len
  {
    if in_ >= out then in_ - out else len - out
  }

  /** Less than one lap apart, slots differ by the distance, minus len after the wrap. */
  lemma SlotGap(a: nat, b: nat, len: nat)
    requires len > 0 && a <= b <= a + len
    ensures Slot(b, len) == if Slot(a, len) + (b - a) < len then Slot(a, len) + (b - a)
                            else Slot(a, len) + (b - a) - len
  {
    var q, r := a / len, a % len;
    assert a == q * len + r;
    if r + (b - a) < len {
      DivModUnique(q, r + (b - a), len);
    } else {
      assert (q + 1) * len == q * len + len;
      DivModUnique(q + 1, r + (b - a) - len, len);
    }
  }

  /** Moving an index n slots on leads to the slot of the byte n further on. */
  lemma SlotAdvance(k: nat, n: nat, len: nat)
    requires len > 0 && n <= len
    ensures Advance(Slot(k, len), n, len) == Slot(k + n, len)
  {
    SlotGap(k, k + n, len);
    if Slot(k, len) + n < len {
      DivModUnique(0, Slot(k, len) + n, len);
    } else {
      DivModUnique(1, Slot(k, len) + n - len, len);
    }
  }

  /** No ABA: running numbers less than a lap apart share a slot only when they are equal. */
  lemma SlotInjective(a: nat, b: nat, len: nat)
    requires len > 0 && a <= b < a + len
    ensures Slot(a, len) == Slot(b, len) <==> a == b
  {
    SlotGap(a, b, len);
  }

  /** The three-way computation of write(): as much as is free and fits before the end of
      the buffer, where one slot always stays unused; zero exactly when the ring is full. */
  lemma WriteRunExact(len: nat, put: nat, taken: nat)
    requires len >= 2 && taken <= put < taken + len
    ensures WriteRun(len, Slot(put, len), Slot(taken, len))
            == Min(len - 1 - (put - taken), len - Slot(put, len))
    ensures WriteRun(len, Slot(put, len), Slot(taken, len)) == 0 <==> put - taken == len - 1
  {
    SlotGap(taken, put, len);
  }

  /** The two-way computation of read(): as much as is there and lies before the end of the
      buffer; zero exactly when the ring is empty. */
  lemma ReadRunExact(len: nat, put: nat, taken: nat)
    requires len >= 2 && taken <= put < taken + len
    ensures ReadRun(len, Slot(put, len), Slot(taken, len))
            == Min(put - taken, len - Slot(taken, len))
    ensures ReadRun(len, Slot(put, len), Slot(taken, len)) == 0 <==> put == taken
  {
    SlotGap(taken, put, len);
  }

  /** Slot-wise agreement with a history is the same as the ring contents being its tail. */
  lemma ContentsIsTail<T>(buf: seq<T>, history: seq<T>, taken: nat)
    requires |buf| > 0 && taken <= |history| < taken + |buf|
    requires forall i :: taken <= i < |history| ==> buf[Slot(i, |buf|)] == history[i]
    ensures Contents(buf, Slot(taken, |buf|), Slot(|history|, |buf|)) == history[taken..]
  {
    var len := |buf|;
    var ring := Contents(buf, Slot(taken, len), Slot(|history|, len));
    SlotGap(taken, |history|, len);
    assert |ring| == |history| - taken;
    forall k | 0 <= k < |ring| ensures ring[k] == history[taken..][k] {
      SlotGap(taken, taken + k, len);
    }
  }
}
