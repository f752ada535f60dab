/**
 * Growth of the message assembly buffer, and whether the byte that terminates a delivered
 * message falls inside it. The early return of the reserve step compares with "<=", so it
 * may leave the buffer exactly full, with no room for the terminator.
 */
module WsMessageBuffer {
  const INITIAL := 256

  /** Doubling from cap until need + 1 bytes fit. */
  function Doubled(cap: nat, need: nat): (r: nat)
    requires cap > 0
    ensures r > need
    decreases if cap > need then 0 else need + 1 - cap
  {
    if need + 1 <= cap then cap else Doubled(2 * cap, need)
  }

  /** Capacity after reserving `need` bytes in a buffer of capacity cap. */
  function Reserved(cap: nat, need: nat): (r: nat)
    ensures need <= r && cap <= r
  {
    if need <= cap then cap else DoubledGrows(if cap == 0 then INITIAL else cap, need);
                                 Doubled(if cap == 0 then INITIAL else cap, need)
  }

  lemma {:induction false} DoubledGrows(cap: nat, need: nat)
    requires cap > 0
    ensures cap <= Doubled(cap, need)
    decreases if cap > need then 0 else need + 1 - cap
  {
    if need + 1 > cap {
      DoubledGrows(2 * cap, need);
    }
  }

  /** The sizes in which a message arrived; no chunk is empty. */
  type Chunks = cs: seq<nat> | forall i :: 0 <= i < |cs| ==> cs[i] > 0

  function Total(cs: seq<nat>): nat {
    if cs == [] then 0 else Total(cs[..|cs| - 1]) + cs[|cs| - 1]
  }

  /** Capacity once the chunks have been appended one after the other. */
  function CapAfter(cs: seq<nat>): (r: nat)
    ensures Total(cs) <= r
  {
    if cs == [] then 0 else Reserved(CapAfter(cs[..|cs| - 1]), Total(cs))
  }

  lemma AppendChunk(cs: Chunks, n: nat)
    requires n > 0
    ensures Total(cs + [n]) == Total(cs) + n
    ensures CapAfter(cs + [n]) == Reserved(CapAfter(cs), Total(cs) + n)
  {
    assert (cs + [n])[..|cs|] == cs;
  }

  /** The terminator written behind the message lies outside the buffer (an absent buffer is allocated first). */
  predicate Overruns(cs: seq<nat>) {
    cs != [] && CapAfter(cs) == Total(cs)
  }

  /** The capacities growth can reach. */
  predicate IsCapacity(c: nat) {
    c == INITIAL || (c > INITIAL && c % 2 == 0 && IsCapacity(c / 2))
  }

  /** The least such capacity above n. */
  ghost predicate IsLeastAbove(c: nat, n: nat) {
    IsCapacity(c) && n < c && (c > INITIAL ==> c / 2 <= n)
  }

  lemma {:induction false} DoubledIsLeast(cap: nat, need: nat)
    requires IsCapacity(cap) && (cap > INITIAL ==> cap / 2 <= need)
    ensures IsLeastAbove(Doubled(cap, need), need)
    decreases if cap > need then 0 else need + 1 - cap
  {
    if need + 1 > cap {
      assert IsCapacity(2 * cap);
      DoubledIsLeast(2 * cap, need);
    }
  }

  /** Two capacities that are both least above the same region coincide. */
  lemma {:induction false} CapacitiesApart(a: nat, b: nat)
    requires IsCapacity(a) && IsCapacity(b) && a < b
    ensures 2 * a <= b
  {
    if a > INITIAL {
      CapacitiesApart(a / 2, b / 2);
    }
  }

  /** The capacity is the least one above the total, or the buffer is exactly full. */
  lemma {:induction false} CapacityShape(cs: Chunks)
    requires cs != []
    ensures (CapAfter(cs) == Total(cs) && IsCapacity(Total(cs))) || IsLeastAbove(CapAfter(cs), Total(cs))
  {
    var init: Chunks := cs[..|cs| - 1];
    var need := Total(cs);
    if init == [] {
      DoubledIsLeast(INITIAL, need);
    } else {
      CapacityShape(init);
      var cap := CapAfter(init);
      if need > cap {
        DoubledIsLeast(cap, need);
      }
    }
  }

  /**
   * The arrivals that fill the buffer exactly, told from the chunk sizes alone: the length is
   * one of the capacities n, and the bytes before the last chunk already needed n, that is,
   * more than n / 2 of them, or n / 2 of them that did not fill their own buffer exactly.
   */
  predicate FillsExactly(cs: seq<nat>)
    decreases |cs|
  {
    cs != [] &&
    var n, last := Total(cs), cs[|cs| - 1];
    && IsCapacity(n)
    && last < n
    && (n > INITIAL ==> last < n / 2 || (last == n / 2 && !FillsExactly(cs[..|cs| - 1])))
  }

  /** Exactly when the terminator has no room. */
  lemma {:induction false} OverrunsExactly(cs: Chunks)
    ensures Overruns(cs) <==> FillsExactly(cs)
    decreases |cs|
  {
    if cs != [] {
      var init: Chunks := cs[..|cs| - 1];
      var n, cap := Total(cs), CapAfter(init);
      CapacityShape(cs);
      if init != [] {
        CapacityShape(init);
        OverrunsExactly(init);
        if IsCapacity(n) && n != cap {
          if cap < n {
            CapacitiesApart(cap, n);
          } else {
            CapacitiesApart(n, cap);
          }
        }
      }
    }
  }

  /** A message of 256 bytes that arrives as 10 and 246 leaves no room for its terminator. */
  lemma OverrunExample()
    ensures Overruns([10, 246])
  {
    assert [10, 246][..1] == [10];
    assert [10][..0] == [];
    assert Total([10, 246]) == 256;
    assert CapAfter([10]) == 256;
  }
}
