/** The in-memory transport: `membuf`, its doubling growth in 64-bit arithmetic, and the peers' callbacks. */
module Transport {
  import opened Bytes

  const SIZE_RANGE: nat := 0x1_0000_0000_0000_0000
  const HALF_RANGE: nat := 0x8000_0000_0000_0000
  const FIRST_CAPACITY: nat := 4096
  const ERR_GENERAL: int := -1
  const WANT_READ: int := -2

  // ---- capacities ----

  /** A capacity reached by doubling from the first one. */
  predicate IsDoubling(c: nat) {
    c == FIRST_CAPACITY || (c > FIRST_CAPACITY && c % 2 == 0 && IsDoubling(c / 2))
  }

  function Pow2(k: nat): nat {
    if k == 0 then 1 else 2 * Pow2(k - 1)
  }

  lemma {:induction false} DoublingsArePowers(c: nat)
    ensures IsDoubling(c) <==> exists k: nat :: c == FIRST_CAPACITY * Pow2(k)
  {
    if IsDoubling(c) {
      if c == FIRST_CAPACITY {
        assert c == FIRST_CAPACITY * Pow2(0);
      } else {
        DoublingsArePowers(c / 2);
        var k: nat :| c / 2 == FIRST_CAPACITY * Pow2(k);
        assert c == FIRST_CAPACITY * Pow2(k + 1);
      }
    }
    forall k: nat | c == FIRST_CAPACITY * Pow2(k) ensures IsDoubling(c) {
      PowerIsDoubling(k);
    }
  }

  lemma {:induction false} PowerIsDoubling(k: nat)
    ensures IsDoubling(FIRST_CAPACITY * Pow2(k))
  {
    if k > 0 { PowerIsDoubling(k - 1); }
  }

  /** The first doubling of `c` that holds `need`. */
  function Grow(c: nat, need: nat): (r: nat)
    requires c > 0
    ensures need <= r && c <= r
    decreases if need <= c then 0 else need - c
  {
    if need <= c then c else Grow(2 * c, need)
  }

  /** Growth keeps doublings, never overshoots by more than one doubling, and stays within half the range. */
  lemma {:induction false} GrowShape(c: nat, need: nat)
    requires IsDoubling(c)
    ensures IsDoubling(Grow(c, need))
    ensures need > c ==> Grow(c, need) < 2 * need && Grow(c, need) >= 2 * c
    ensures c <= HALF_RANGE && need <= HALF_RANGE ==> Grow(c, need) <= HALF_RANGE
    decreases if need <= c then 0 else need - c
  {
    if need > c {
      assert (2 * c) / 2 == c;
      if c < HALF_RANGE { DoublingDividesHalf(c); }
      GrowShape(2 * c, need);
    }
  }

  lemma {:induction false} Pow2Adds(a: nat, b: nat)
    ensures Pow2(a + b) == Pow2(a) * Pow2(b)
  {
    if a > 0 {
      Pow2Adds(a - 1, b);
      ScaleProduct(2, Pow2(a - 1), Pow2(b));
    }
  }

  lemma HalfIsDoubling()
    ensures IsDoubling(HALF_RANGE)
  {
    HalfIsPower();
    hide IsDoubling, Pow2;
    PowerIsDoubling(51);
  }

  lemma HalfIsPower()
    ensures FIRST_CAPACITY * Pow2(51) == HALF_RANGE
  {
    assert Pow2(10) == 1024 && Pow2(1) == 2;
    hide Pow2;
    Pow2Adds(10, 10);
    Pow2Adds(20, 20);
    Pow2Adds(40, 10);
    Pow2Adds(50, 1);
  }

  /** Between a doubling and the next there is none. */
  lemma {:induction false} DoublingGap(c: nat, d: nat)
    requires IsDoubling(c) && IsDoubling(d) && c < d
    ensures 2 * c <= d
    decreases c
  {
    if c > FIRST_CAPACITY { DoublingGap(c / 2, d / 2); }
  }

  /** A doubling below 2^63 can be doubled once more within 2^63. */
  lemma DoublingDividesHalf(c: nat)
    requires IsDoubling(c) && c < HALF_RANGE
    ensures 2 * c <= HALF_RANGE
  {
    HalfIsDoubling();
    DoublingGap(c, HALF_RANGE);
  }

  /** Growth stops at the first sufficient doubling: the one before it, if any, was too small. */
  lemma {:induction false} GrowIsFirst(c: nat, need: nat) returns (k: nat)
    requires c > 0
    ensures Grow(c, need) == c * Pow2(k) && need <= c * Pow2(k)
    ensures forall j | 0 <= j < k :: c * Pow2(j) < need
    decreases if need <= c then 0 else need - c
  {
    if need <= c {
      k := 0;
    } else {
      var k' := GrowIsFirst(2 * c, need);
      k := k' + 1;
      DoubleFirst(c, k');
      forall j | 0 <= j < k ensures c * Pow2(j) < need {
        if j > 0 { DoubleFirst(c, j - 1); }
      }
    }
  }

  lemma DoubleFirst(c: nat, k: nat)
    ensures (2 * c) * Pow2(k) == c * Pow2(k + 1)
  {
    assert Pow2(k + 1) == 2 * Pow2(k);
    ScaleProduct(c, 2, Pow2(k));
  }

  /** One round of the loop: the doubling does not wrap, and leads to the same capacity. */
  lemma GrowStep(c: nat, need: nat)
    requires IsDoubling(c) && c < need <= HALF_RANGE
    ensures c > 0 && Grow(c, need) == Grow(2 * c, need)
    ensures IsDoubling(2 * c) && 2 * c <= HALF_RANGE && c * 2 % SIZE_RANGE == 2 * c
  {
    DoublingDividesHalf(c);
    assert (2 * c) / 2 == c;
  }

  /** The candidate capacity after `k` rounds of `ncap *= 2` in 64-bit arithmetic. */
  function Rounds(c: nat, k: nat): nat {
    if k == 0 then c else 2 * Rounds(c, k - 1) % SIZE_RANGE
  }

  /** In 64 bits a candidate is always a doubling up to 2^63, or zero for ever after. */
  lemma {:induction false} RoundsShape(c: nat, k: nat)
    requires IsDoubling(c) && c <= HALF_RANGE
    ensures var r := Rounds(c, k); r == 0 || (IsDoubling(r) && r <= HALF_RANGE)
  {
    if k > 0 {
      RoundsShape(c, k - 1);
      DoubleInRange(Rounds(c, k - 1));
    }
  }

  lemma DoubleInRange(r: nat)
    requires r == 0 || (IsDoubling(r) && r <= HALF_RANGE)
    ensures var d := 2 * r % SIZE_RANGE; d == 0 || (d == 2 * r && IsDoubling(d) && d <= HALF_RANGE)
  {
    if r != 0 && r < HALF_RANGE {
      DoublingDividesHalf(r);
      assert (2 * r) / 2 == r;
    }
  }

  lemma {:induction false} RoundsCompose(c: nat, k: nat)
    requires k > 0
    ensures Rounds(c, k) == Rounds(2 * c % SIZE_RANGE, k - 1)
  {
    if k > 1 { RoundsCompose(c, k - 1); }
  }

  /** The doubling loop ends, in 64-bit arithmetic, exactly when at most 2^63 octets are needed. */
  lemma DoublingTerminates(c: nat, need: nat)
    requires IsDoubling(c) && c <= HALF_RANGE && need < SIZE_RANGE
    ensures (exists k: nat :: Rounds(c, k) >= need) <==> need <= HALF_RANGE
  {
    if need <= HALF_RANGE {
      var k := RoundsReach(c, need);
      assert Rounds(c, k) >= need;
    }
    forall k: nat | Rounds(c, k) >= need ensures need <= HALF_RANGE {
      RoundsShape(c, k);
    }
  }

  lemma {:induction false} RoundsReach(c: nat, need: nat) returns (k: nat)
    requires IsDoubling(c) && c <= HALF_RANGE && need <= HALF_RANGE
    ensures Rounds(c, k) == Grow(c, need)
    decreases if need <= c then 0 else need - c
  {
    if need <= c {
      k := 0;
    } else {
      DoublingDividesHalf(c);
      assert (2 * c) / 2 == c;
      k := RoundsReach(2 * c, need);
      k := k + 1;
      RoundsCompose(c, k);
    }
  }

  // ---- one buffer ----

  /** What a buffer holds: everything written, the capacity, the read offset, and the octets realloc moved. */
  datatype Buf = Buf(data: bytes, cap: nat, rd: nat, moved: nat)

  const EMPTY: Buf := Buf([], 0, 0, 0)

  /** The invariant of a buffer, capacity and cost included. */
  predicate BufOk(b: Buf) {
    && b.rd <= |b.data| <= b.cap <= HALF_RANGE
    && (b.cap == 0 ==> b.moved == 0)
    && (b.cap > 0 ==> IsDoubling(b.cap) && b.moved + FIRST_CAPACITY <= b.cap)
    && (b.cap > FIRST_CAPACITY ==> b.cap < 2 * |b.data|)
  }

  /** `membuf_write`: the new buffer and the return code. A realloc is counted as moving the whole old block. */
  function Written(b: Buf, src: bytes, allocOk: bool): (Buf, int) {
    var need := |b.data| + |src|;
    if need <= b.cap then (b.(data := b.data + src), 0)
    else if !allocOk then (b, -1)
    else (Buf(b.data + src, Grow(if b.cap == 0 then FIRST_CAPACITY else b.cap, need), b.rd, b.moved + b.cap), 0)
  }

  lemma WrittenIsOk(b: Buf, src: bytes, allocOk: bool)
    requires BufOk(b) && |b.data| + |src| <= HALF_RANGE
    ensures BufOk(Written(b, src, allocOk).0)
  {
    var need, c := |b.data| + |src|, if b.cap == 0 then FIRST_CAPACITY else b.cap;
    GrowShape(c, need);
  }

  /**
   A write succeeds if and only if the octets fit the capacity or the allocation succeeds. Then they stand
   behind what was written before; otherwise nothing changes. The old block is moved exactly when the
   capacity does not suffice, and the new capacity is the first sufficient doubling.
  */
  lemma WriteOutcome(b: Buf, src: bytes, allocOk: bool)
    requires BufOk(b)
    ensures var (b', rc) := Written(b, src, allocOk);
            var fits, first := |b.data| + |src| <= b.cap, if b.cap == 0 then 4096 else b.cap;
            && (rc == 0 <==> fits || allocOk) && (rc == -1 <==> !fits && !allocOk)
            && (rc == -1 ==> b' == b)
            && (rc == 0 ==> b'.data == b.data + src && b'.rd == b.rd)
            && (fits ==> b'.cap == b.cap && b'.moved == b.moved)
            && (rc == 0 && !fits ==>
                  && b'.moved == b.moved + b.cap
                  && IsFirstDoubling(first, |b.data| + |src|, b'.cap))
  {
    hide IsDoubling, Grow, IsFirstDoubling;
    var c, need := if b.cap == 0 then FIRST_CAPACITY else b.cap, |b.data| + |src|;
    GrowsToFirst(c, need);
  }

  lemma GrowsToFirst(c: nat, need: nat)
    requires c > 0
    ensures IsFirstDoubling(c, need, Grow(c, need))
  {
    var k := GrowIsFirst(c, need);
    assert FirstDoubling(c, k, need, Grow(c, need));
  }

  ghost predicate IsFirstDoubling(c: nat, need: nat, r: nat) {
    exists k: nat :: FirstDoubling(c, k, need, r)
  }

  /** `r` is `c` doubled `k` times, and the first such number that reaches `need`. */
  predicate FirstDoubling(c: nat, k: nat, need: nat, r: nat) {
    r == c * Pow2(k) && need <= r && forall j | 0 <= j < k :: c * Pow2(j) < need
  }

  /** `io_recv`: the new buffer and what was read, if anything was there. */
  function Received(b: Buf, sz: nat): (Buf, Option<bytes>)
    requires b.rd <= |b.data|
  {
    var avail := |b.data| - b.rd;
    if avail == 0 then (b, None)
    else
      var n := if sz < avail then sz else avail;
      (b.(rd := b.rd + n), Some(b.data[b.rd..b.rd + n]))
  }

  /**
   A receive reports that it would block if and only if nothing is unread, and otherwise delivers the next
   unread octets, as many as were asked for or as there are.
  */
  lemma ReceiveOutcome(b: Buf, sz: nat)
    requires b.rd <= |b.data|
    ensures var (b', got), unread := Received(b, sz), b.data[b.rd..];
            && (got.None? <==> unread == []) && b'.data == b.data && b'.cap == b.cap && b'.moved == b.moved
            && (got.None? ==> b' == b)
            && (got.Some? ==>
                  && |got.value| == (if sz <= |unread| then sz else |unread|)
                  && got.value <= unread && b'.data[b'.rd..] == unread[|got.value|..])
  {
    var unread := b.data[b.rd..];
    var n := if sz <= |unread| then sz else |unread|;
    assert b.data[b.rd..b.rd + n] == unread[..n];
  }

  lemma SlicePrefix(s: bytes, len: nat, a: nat, b: nat)
    requires a <= b <= len <= |s|
    ensures s[..len][a..b] == s[a..b]
  {
  }

  class MemBuf {
    var buf: array<byte>
    var len: nat
    var cap: nat
    var rd: nat
    ghost var moved: nat

    ghost predicate Valid()
      reads this, buf
    {
      buf.Length == cap && len <= cap && BufOk(Buf(buf[..len], cap, rd, moved))
    }

    ghost function View(): Buf
      requires Valid()
      reads this, buf
    {
      Buf(buf[..len], cap, rd, moved)
    }

    constructor ()
      ensures Valid() && View() == EMPTY && fresh(buf)
    {
      buf := new byte[0];
      len, cap, rd, moved := 0, 0, 0, 0;
    }

    /** The loop `while (m->len + n > ncap) ncap *= 2`, with 64-bit sums and products. */
    method FindCapacity(n: nat) returns (ncap: nat)
      requires Valid() && len + n <= HALF_RANGE && len + n > cap
      ensures ncap == Grow(if cap == 0 then FIRST_CAPACITY else cap, len + n)
    {
      ncap := if cap == 0 then FIRST_CAPACITY else cap;
      assert IsDoubling(ncap) && ncap <= HALF_RANGE;
      hide BufOk, IsDoubling, Grow;
      ghost var start := ncap;
      while (len + n) % SIZE_RANGE > ncap
        invariant IsDoubling(ncap) && ncap <= HALF_RANGE
        invariant Grow(ncap, len + n) == Grow(start, len + n)
        invariant ncap > 0
        decreases HALF_RANGE - ncap
      {
        GrowStep(ncap, len + n);
        ncap := ncap * 2 % SIZE_RANGE;
      }
    }

    /** A successful `realloc`: a larger block with the old contents. */
    method Reallocate(ncap: nat)
      requires buf.Length == cap && len <= cap <= ncap
      modifies this`buf, this`cap, this`moved
      ensures fresh(buf) && buf.Length == cap == ncap
      ensures buf[..len] == old(buf[..len]) && moved == old(moved) + old(cap)
    {
      var nb := new byte[ncap](_ => 0);
      for i := 0 to len
        invariant nb[..i] == buf[..i]
        modifies nb
      {
        nb[i] := buf[i];
      }
      moved := moved + cap;
      buf := nb;
      cap := ncap;
    }

    method Write(src: bytes, allocOk: bool) returns (rc: int)
      requires Valid() && len + |src| <= HALF_RANGE
      modifies this, buf
      ensures Valid() && (buf == old(buf) || fresh(buf))
      ensures (View(), rc) == Written(old(View()), src, allocOk)
      ensures rc == 0 <==> old(len) + |src| <= old(cap) || allocOk
      ensures rc == 0 ==> buf[..len] == old(buf[..len]) + src && rd == old(rd)
      ensures rc != 0 ==> rc == -1 && View() == old(View())
    {
      WrittenIsOk(View(), src, allocOk);
      assert len <= cap <= HALF_RANGE;
      hide BufOk, Grow;
      var n := |src|;
      if (len + n) % SIZE_RANGE > cap {
        var ncap := FindCapacity(n);
        if !allocOk { return -1; }
        Reallocate(ncap);
      }
      Append(src);
      rc := 0;
    }

    /** `memcpy(m->buf + m->len, src, n); m->len += n;` */
    method Append(src: bytes)
      requires buf.Length == cap && len + |src| <= cap
      modifies this`len, buf
      ensures buf == old(buf) && len == old(len) + |src| && buf[..len] == old(buf[..len]) + src
    {
      for i := 0 to |src|
        invariant buf[..len] == old(buf[..len]) && buf[len..len + i] == src[..i]
        modifies buf
      {
        buf[len + i] := src[i];
      }
      assert buf[..len + |src|] == buf[..len] + buf[len..len + |src|];
      len := len + |src|;
    }

    /** The reading half of `io_recv`, into a caller's array. */
    method Read(dest: array<byte>, sz: nat) returns (rc: int)
      requires Valid() && sz <= dest.Length && dest != buf
      modifies this`rd, dest
      ensures Valid() && buf == old(buf)
      ensures View() == Received(old(View()), sz).0
      ensures var got := Received(old(View()), sz).1;
              if got.None? then rc == WANT_READ && dest[..] == old(dest[..])
              else rc == |got.value| && dest[..rc] == got.value && dest[rc..] == old(dest[rc..])
      ensures old(rd) == len ==> rc == -2
      ensures old(rd) < len ==> rc == (if sz < len - old(rd) then sz else len - old(rd)) == rd - old(rd)
      ensures old(rd) < len ==> dest[..rc] == buf[old(rd)..rd]
    {
      var avail := len - rd;
      if avail == 0 { return WANT_READ; }
      var n := if sz < avail then sz else avail;
      for i := 0 to n
        invariant dest[..i] == buf[rd..rd + i] && dest[n..] == old(dest[n..])
        modifies dest
      {
        dest[i] := buf[rd + i];
      }
      SlicePrefix(buf[..], len, rd, rd + n);
      rd := rd + n;
      rc := n;
    }
  }
}
