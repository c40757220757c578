/** What a file system on top of the hardware layer sees: it reads back what it wrote. */
module SpiRoundTrip {
  import opened NorFlash
  import opened SpiHal

  /** `b` is what disjoint writes put at flash address `at` of an erased region. */
  ghost predicate Holds(writes: seq<Write>, at: nat, b: Byte) {
    && (forall w <- writes :: Covers(w, at) ==> b == w.data[at - w.addr])
    && ((forall w <- writes :: !Covers(w, at)) ==> b == ERASED)
  }

  ghost predicate UnchangedOutside(before: seq<Byte>, after: seq<Byte>, addr: nat, size: nat) {
    |after| == |before| && forall i: nat :: i < |before| && !(addr <= i < addr + size) ==> after[i] == before[i]
  }

  /** The writes are to bytes `addr..addr + size`. */
  ghost predicate Inside(writes: seq<Write>, addr: nat, size: nat) {
    forall w <- writes :: addr <= w.addr && w.addr + |w.data| <= addr + size
  }

  /** Byte by byte, what an erase and disjoint writes in any order leave. */
  lemma RegionHolds(cells: seq<Byte>, addr: nat, size: nat, writes: seq<Write>, performed: seq<Write>)
    requires addr + size <= |cells| && Inside(writes, addr, size)
    requires PairwiseDisjoint(writes) && multiset(performed) == multiset(writes)
    ensures var after := ProgramAll(Erase(cells, addr, size), performed);
            && (forall at: nat :: addr <= at < addr + size ==> Holds(writes, at, after[at]))
            && UnchangedOutside(cells, after, addr, size)
  {
    EraseThenWritesReadBack(cells, addr, size, writes, performed);
    var after := ProgramAll(Erase(cells, addr, size), performed);
    forall at: nat | addr <= at < addr + size
      ensures Holds(writes, at, after[at])
    {
      forall w <- writes | Covers(w, at)
        ensures after[at] == w.data[at - w.addr]
      {
        assert after[w.addr..w.addr + |w.data|][at - w.addr] == after[at];
      }
    }
  }

  /**
   * Erase a region and carry out disjoint writes inside it in any order, also
   * where they share a word. A read anywhere in the region, straddling writes
   * and gaps as it likes, then returns the written bytes and 0xff between them,
   * and touches nothing behind its `size` bytes.
   */
  lemma ReadAfterWrites(step: PointerStep, cells: seq<Byte>, addr: nat, size: nat,
                        writes: seq<Write>, performed: seq<Write>, span: Span,
                        stack: seq<Byte>, was: Byte, i: nat)
    requires addr + size <= |cells| && |stack| == 12 && Inside(writes, addr, size)
    requires PairwiseDisjoint(writes) && multiset(performed) == multiset(writes)
    requires span.Valid() && ReadAsMeant(step, span)
    requires addr <= span.addr && span.addr + span.size <= addr + size
    ensures OnChip(ProgramAll(Erase(cells, addr, size), performed), span)
    ensures var b := ReadByte(step, ProgramAll(Erase(cells, addr, size), performed), span, stack, was, i);
            if i < span.size then Holds(writes, span.addr + i, b) else b == was
  {
    var after := ProgramAll(Erase(cells, addr, size), performed);
    assert OnChip(after, span) by { assert |after| == |cells|; }
    RegionHolds(cells, addr, size, writes, performed);
    ReadIsMeant(step, after, span, stack);
  }

  /**
   * If the `k`-th write is what MySpiWrite sends for `span` from RAM at `src`,
   * then reading that span returns those bytes of RAM.
   */
  lemma WrittenSpanReadsBack(step: PointerStep, ram: Ram, cells: seq<Byte>, addr: nat, size: nat,
                             writes: seq<Write>, performed: seq<Write>, k: nat, span: Span, src: nat,
                             stack: seq<Byte>, was: Byte, i: nat)
    requires addr + size <= |cells| && |stack| == 12 && k < |writes| && i < span.size
    requires PairwiseDisjoint(writes) && multiset(performed) == multiset(writes) && Inside(writes, addr, size)
    requires span.Valid() && SourceReadable(step, ram, span, src) && WriteAsMeant(step, span, src)
    requires writes[k] == Write(span.addr, Sent(step, ram, span, src))
    requires ReadAsMeant(step, span)
    ensures OnChip(ProgramAll(Erase(cells, addr, size), performed), span)
    ensures ReadByte(step, ProgramAll(Erase(cells, addr, size), performed), span, stack, was, i) == ram[src + i]
  {
    SentAsMeant(step, ram, span, src);
    assert writes[k] in writes && Covers(writes[k], span.addr + i);
    ReadAfterWrites(step, cells, addr, size, writes, performed, span, stack, was, i);
  }

  // ---- a session of the three operations on one chip ----

  /** A write request: `size` bytes from RAM at `src` to flash at `addr`. */
  datatype Request = Request(addr: nat, size: nat, src: nat)

  /** The request is in the domain on which a write sends the caller's bytes. */
  predicate CanWrite(step: PointerStep, ram: Ram, q: Request) {
    && NonWrapping(q.addr, q.size)
    && SourceReadable(step, ram, SpanOf(q.addr, q.size), q.src)
    && WriteAsMeant(step, SpanOf(q.addr, q.size), q.src)
  }

  /** The bytes of RAM a request is about. */
  function WriteFor(ram: Ram, q: Request): Write {
    Write(q.addr, if q.src + q.size <= |ram| then ram[q.src..q.src + q.size] else [])
  }

  function WritesFor(ram: Ram, requests: seq<Request>): (writes: seq<Write>)
    ensures |writes| == |requests|
    ensures forall i :: 0 <= i < |writes| ==> writes[i] == WriteFor(ram, requests[i])
  {
    if requests == [] then []
    else WritesFor(ram, requests[..|requests| - 1]) + [WriteFor(ram, requests[|requests| - 1])]
  }

  /**
   * Erase sectors, write disjoint requests in the order given, and read any part
   * of the sectors: when every call succeeds, each byte is the byte of RAM
   * written there, or 0xff where nothing was written. It succeeds unless the chip
   * fails.
   */
  method EraseWriteRead(chip: Chip, step: PointerStep, ram: Ram, addr: nat, size: nat,
                        requests: seq<Request>, at: nat, count: nat, dst: array<Byte>, stack: seq<Byte>)
      returns (status: Status)
    requires NonWrapping(addr, size) && addr % SECTOR == 0 && size % SECTOR == 0 && addr + size <= |chip.cells|
    requires forall q <- requests :: CanWrite(step, ram, q)
    requires PairwiseDisjoint(WritesFor(ram, requests)) && Inside(WritesFor(ram, requests), addr, size)
    requires NonWrapping(at, count) && ReadAsMeant(step, SpanOf(at, count))
    requires addr <= at && at + count <= addr + size && count <= dst.Length && |stack| == 12
    modifies chip, dst
    ensures status.Ok? <==> chip.failures == old(chip.failures)
    ensures status.Ok? ==> forall i: nat :: i < count ==> Holds(WritesFor(ram, requests), at + i, dst[i])
    ensures status.Ok? ==> forall i: nat :: count <= i < dst.Length ==> dst[i] == old(dst[i])
    ensures status.Ok? ==> UnchangedOutside(old(chip.cells), chip.cells, addr, size)
  {
    ghost var before := chip.cells;
    status := EraseAndWrite(chip, step, ram, addr, size, requests);
    if status.Ok? {
      RegionHolds(before, addr, size, WritesFor(ram, requests), WritesFor(ram, requests));
      ghost var after := chip.cells;
      status := MySpiRead(chip, step, at, count, dst, stack);
      if status.Ok? {
        forall i: nat | i < count
          ensures Holds(WritesFor(ram, requests), at + i, dst[i])
        {
          assert dst[i] == after[at + i];
        }
      }
    }
  }

  method EraseAndWrite(chip: Chip, step: PointerStep, ram: Ram, addr: nat, size: nat, requests: seq<Request>)
      returns (status: Status)
    requires NonWrapping(addr, size) && addr % SECTOR == 0 && size % SECTOR == 0
    requires forall q <- requests :: CanWrite(step, ram, q)
    modifies chip
    ensures chip.failures == old(chip.failures) + if status.Ok? then 0 else 1
    ensures status.Ok? ==> chip.cells == ProgramAll(Erase(old(chip.cells), addr, size), WritesFor(ram, requests))
  {
    ghost var done;
    status, done := MySpiErase(chip, addr, size);
    var k := 0;
    while status.Ok? && k < |requests|
      invariant 0 <= k <= |requests|
      invariant chip.failures == old(chip.failures) + if status.Ok? then 0 else 1
      invariant status.Ok? ==>
        chip.cells == ProgramAll(Erase(old(chip.cells), addr, size), WritesFor(ram, requests[..k]))
    {
      status := WriteRequest(chip, step, ram, requests[k]);
      WritesForNext(ram, requests, k);
      ProgramAllAppend(Erase(old(chip.cells), addr, size), WritesFor(ram, requests[..k]), WriteFor(ram, requests[k]));
      k := k + 1;
    }
    assert requests[..|requests|] == requests;
  }

  method WriteRequest(chip: Chip, step: PointerStep, ram: Ram, q: Request) returns (status: Status)
    requires CanWrite(step, ram, q)
    modifies chip
    ensures chip.failures == old(chip.failures) + if status.Ok? then 0 else 1
    ensures status.Ok? ==> chip.cells == Program(old(chip.cells), q.addr, WriteFor(ram, q).data)
  {
    ghost var sent, done;
    status, sent, done := MySpiWrite(chip, step, q.addr, q.size, ram, q.src);
    assert status.Ok? ==> sent[..done] == sent;
  }

  lemma WritesForNext(ram: Ram, requests: seq<Request>, k: nat)
    requires k < |requests|
    ensures WritesFor(ram, requests[..k + 1]) == WritesFor(ram, requests[..k]) + [WriteFor(ram, requests[k])]
  {
    assert requests[..k + 1][..k] == requests[..k];
  }

  lemma {:induction false} ProgramAllAppend(cells: seq<Byte>, writes: seq<Write>, w: Write)
    ensures ProgramAll(cells, writes + [w]) == Program(ProgramAll(cells, writes), w.addr, w.data)
    decreases |writes|
  {
    if writes == [] {
      assert [w][1..] == [];
    } else {
      assert (writes + [w])[1..] == writes[1..] + [w];
      ProgramAllAppend(Program(cells, writes[0].addr, writes[0].data), writes[1..], w);
    }
  }
}
