/** The history of entered lines: a fixed array used as a ring buffer and
    a counter of the lines written since construction or the last clear. */
module History {

  /** The largest value of the source's unsigned 32-bit counter. */
  const UIntMax: nat := 0xFFFF_FFFF

  /** A non-zero multiple of `c` is at least `c` away from zero. */
  lemma MulBound(d: int, c: int)
    requires c > 0
    ensures d >= 1 ==> d * c >= c
    ensures d <= -1 ==> d * c <= -c
  {
    if d >= 1 {
      MulGrows(d, c);
    } else if d <= -1 {
      MulGrows(-d, c);
      assert d * c == -((-d) * c);
    }
  }

  lemma MulGrows(d: int, c: int)
    requires d >= 1 && c > 0
    ensures d * c >= c
  {
    assert d * c == (d - 1) * c + c;
    assert (d - 1) * c >= 0;
  }

  /** A value written as `q * c + r` with `0 <= r < c` has quotient `q`
      and remainder `r`. */
  lemma ModUnique(x: int, c: int, q: int, r: int)
    requires c > 0 && 0 <= r < c && x == q * c + r
    ensures x % c == r && x / c == q
  {
    var q', r' := x / c, x % c;
    var d := q - q';
    assert d * c == r' - r by {
      assert q * c - q' * c == (q - q') * c;
    }
    MulBound(d, c);
  }

  /** Distinct positions less than a full turn apart land in distinct slots. */
  lemma ModDistinct(a: nat, b: nat, c: nat)
    requires c > 0 && a < b < a + c
    ensures a % c != b % c
  {
    var q, r := a / c, a % c;
    if r + (b - a) < c {
      ModUnique(b, c, q, r + (b - a));
    } else {
      assert b == (q + 1) * c + (r + (b - a) - c);
      ModUnique(b, c, q + 1, r + (b - a) - c);
    }
  }

  /** Adding whole turns does not change the slot. */
  lemma ModAddMultiple(x: nat, q: nat, c: nat)
    requires c > 0
    ensures (x + q * c) % c == x % c
  {
    assert x + q * c == (x / c + q) * c + x % c;
    ModUnique(x + q * c, c, x / c + q, x % c);
  }

  /** Moving `k` slots from slot `a % c` lands where moving from `a` does. */
  lemma ModShift(a: nat, k: nat, c: nat)
    requires c > 0
    ensures (a % c + k) % c == (a + k) % c
  {
    var y := a % c + k;
    assert a + k == (a / c + y / c) * c + y % c;
    ModUnique(a + k, c, a / c + y / c, y % c);
  }

  /** What the indexer finds: the line in a slot, or an index outside the
      array (the source throws). */
  datatype Slot = Line(line: string) | OutOfRange

  class CommandHistory {
    /** Lines written since construction or the last `Clear`. */
    var record: nat
    const capacity: nat
    const buffer: array<string>
    /** Every line written since construction or the last `Clear`. */
    ghost var lines: seq<string>

    /** Each of the last `capacity` lines sits in the slot its position
        selects modulo the capacity. */
    ghost predicate Valid()
      reads this, buffer
    {
      capacity > 0 && buffer.Length == capacity && record == |lines| &&
      forall k :: 0 <= k < |lines| && |lines| - capacity <= k ==> buffer[k % capacity] == lines[k]
    }

    /** A history of the given capacity (100 by default in the source);
        slots never written read as the empty string. */
    constructor (maxRecords: nat)
      requires maxRecords > 0
      ensures Valid() && fresh(buffer) && capacity == maxRecords && lines == []
    {
      record := 0;
      capacity := maxRecords;
      buffer := new string[maxRecords](_ => "");
      lines := [];
    }

    /** The number of lines the buffer still holds. */
    function Size(): (n: nat)
      reads this
      ensures n <= record && n <= capacity
      ensures n == record || n == capacity
    {
      if record < capacity then record else capacity
    }

    /** The lines the buffer still holds, oldest first. */
    ghost function Retained(): (r: seq<string>)
      reads this
      requires record == |lines|
    {
      lines[record - Size()..]
    }

    /** The indexer: the slot at `index`, when the array has one. */
    function At(index: int): (r: Slot)
      reads this, buffer
      requires Valid()
      ensures r.Line? <==> 0 <= index < capacity
      ensures r.Line? ==> r.line == buffer[index]
    {
      if 0 <= index < buffer.Length then Line(buffer[index]) else OutOfRange
    }

    /** Writes `line` into the slot after the newest one. */
    method PushBack(line: string)
      requires Valid()
      modifies this, buffer
      ensures Valid() && lines == old(lines) + [line]
      ensures buffer[..] == old(buffer[..])[old(record) % capacity := line]
    {
      buffer[record % capacity] := line;
      record := record + 1;
      lines := lines + [line];
      forall k | 0 <= k < |lines| && |lines| - capacity <= k
        ensures buffer[k % capacity] == lines[k]
      {
        if k < |lines| - 1 {
          ModDistinct(k, |lines| - 1, capacity);
        }
      }
    }

    /** The slot of the newest line. With no line written, the source's
        unsigned `record - 1` wraps to the largest 32-bit value. */
    function NewIndex(): (i: nat)
      reads this
      requires capacity > 0
      ensures i < capacity
    {
      if record == 0 then UIntMax % capacity else (record - 1) % capacity
    }

    function GetNew(): (line: string)
      reads this, buffer
      requires Valid()
      ensures record > 0 ==> line == lines[|lines| - 1]
    {
      buffer[NewIndex()]
    }

    /** The slot of the oldest line still held: the first slot until the
        buffer has wrapped, then the slot the next write will take. */
    function OldIndex(): (i: nat)
      reads this
      requires capacity > 0
      ensures i < capacity
      ensures record <= capacity ==> i == 0
      ensures i == (record - Size()) % capacity
    {
      ModAddMultiple(record - Size(), 1, capacity);
      if record <= capacity then 0 else record % capacity
    }

    function GetOld(): (line: string)
      reads this, buffer
      requires Valid()
      ensures record > 0 ==> line == Retained()[0]
    {
      buffer[OldIndex()]
    }

    /** Forgets every line; the slots keep their contents. */
    method Clear()
      requires Valid()
      modifies this
      ensures Valid() && lines == [] && Size() == 0
      ensures unchanged(buffer)
    {
      record := 0;
      lines := [];
    }

    /** Walking `k` slots on from the oldest one finds the `k`-th oldest
        line still held: the buffer holds exactly the last `Size()` lines. */
    lemma RetainedAt(k: nat)
      requires Valid() && k < Size()
      ensures buffer[(OldIndex() + k) % capacity] == Retained()[k]
    {
      ModShift(record - Size(), k, capacity);
    }

    /** The newest line follows the oldest one `Size() - 1` slots on. */
    lemma NewAfterOld()
      requires Valid() && record > 0
      ensures NewIndex() == (OldIndex() + Size() - 1) % capacity
    {
      ModShift(record - Size(), Size() - 1, capacity);
    }
  }
}
