/**
 * The NOR flash chip behind the ESP32 SPI flash API, and the algebra of the
 * two things that can happen to its bytes: programming clears bits (bitwise
 * AND) and erasing a sector sets them all.
 */
module NorFlash {

  const WORD: nat := 4
  const SECTOR: nat := 4096
  const ERASED: Byte := Byte(true, true, true, true, true, true, true, true)

  /** A byte, bit by bit from the most significant one. */
  datatype Byte = Byte(b7: bool, b6: bool, b5: bool, b4: bool, b3: bool, b2: bool, b1: bool, b0: bool)

  /** Bitwise AND */
  function And(x: Byte, y: Byte): Byte {
    Byte(x.b7 && y.b7, x.b6 && y.b6, x.b5 && y.b5, x.b4 && y.b4,
         x.b3 && y.b3, x.b2 && y.b2, x.b1 && y.b1, x.b0 && y.b0)
  }

  /** A flash write operation: `data` at byte address `addr`. */
  datatype Write = Write(addr: nat, data: seq<Byte>)

  /** Programming one byte can only clear bits. */
  function ProgramByte(cells: seq<Byte>, addr: nat, b: Byte): (after: seq<Byte>)
    ensures |after| == |cells|
  {
    if addr < |cells| then cells[addr := And(cells[addr], b)] else cells
  }

  /** Programming `data` at `addr`, a byte at a time. */
  function Program(cells: seq<Byte>, addr: nat, data: seq<Byte>): (after: seq<Byte>)
    ensures |after| == |cells|
    decreases |data|
  {
    if data == [] then cells
    else Program(ProgramByte(cells, addr, data[0]), addr + 1, data[1..])
  }

  /** What programming means for every byte: covered ones become old AND new, no other changes. */
  lemma {:induction false} ByteAfterProgram(cells: seq<Byte>, addr: nat, data: seq<Byte>, i: nat)
    requires i < |cells|
    ensures Program(cells, addr, data)[i]
         == if addr <= i < addr + |data| then And(cells[i], data[i - addr]) else cells[i]
    decreases |data|
  {
    if data != [] {
      ByteAfterProgram(ProgramByte(cells, addr, data[0]), addr + 1, data[1..], i);
    }
  }

  /** Erasing `count` bytes from `addr`. */
  function Erase(cells: seq<Byte>, addr: nat, count: nat): (after: seq<Byte>)
    ensures |after| == |cells|
  {
    seq(|cells|, i requires 0 <= i < |cells| =>
      if addr <= i < addr + count then ERASED else cells[i])
  }

  /** A list of writes, applied in order. */
  function ProgramAll(cells: seq<Byte>, writes: seq<Write>): (after: seq<Byte>)
    ensures |after| == |cells|
    decreases |writes|
  {
    if writes == [] then cells
    else ProgramAll(Program(cells, writes[0].addr, writes[0].data), writes[1..])
  }

  predicate Covers(w: Write, i: nat) {
    w.addr <= i < w.addr + |w.data|
  }

  predicate Disjoint(v: Write, w: Write) {
    v.addr + |v.data| <= w.addr || w.addr + |w.data| <= v.addr
  }

  ghost predicate PairwiseDisjoint(writes: seq<Write>) {
    forall j, k :: 0 <= j < k < |writes| ==> Disjoint(writes[j], writes[k])
  }

  /**
   * The chip. Every call needs word alignment, may fail without an effect
   * whenever the driver feels like it, and fails on a range it does not have.
   */
  class Chip {
    var cells: seq<Byte>
    ghost var failures: nat

    method ReadWords(addr: nat, count: nat) returns (ok: bool, data: seq<Byte>)
      requires addr % WORD == 0 && count % WORD == 0
      modifies this`failures
      ensures failures == old(failures) + if ok then 0 else 1
      ensures ok ==> addr + count <= |cells| && data == cells[addr..addr + count]
    {
      ok, data := *, [];
      if ok && addr + count <= |cells| {
        data := cells[addr..addr + count];
      } else {
        ok, failures := false, failures + 1;
      }
    }

    method WriteWords(addr: nat, data: seq<Byte>) returns (ok: bool)
      requires addr % WORD == 0 && |data| % WORD == 0
      modifies this
      ensures failures == old(failures) + if ok then 0 else 1
      ensures ok ==> addr + |data| <= |cells|
      ensures cells == if ok then Program(old(cells), addr, data) else old(cells)
    {
      ok := *;
      if ok && addr + |data| <= |cells| {
        cells := Program(cells, addr, data);
      } else {
        ok, failures := false, failures + 1;
      }
    }

    method EraseSector(sector: nat) returns (ok: bool)
      modifies this
      ensures failures == old(failures) + if ok then 0 else 1
      ensures ok ==> (sector + 1) * SECTOR <= |cells|
      ensures cells == if ok then Erase(old(cells), sector * SECTOR, SECTOR) else old(cells)
    {
      ok := *;
      if ok && (sector + 1) * SECTOR <= |cells| {
        cells := Erase(cells, sector * SECTOR, SECTOR);
      } else {
        ok, failures := false, failures + 1;
      }
    }
  }

  /** Bytes of 0xff around the data of a word leave their cells alone. */
  lemma PaddingIsNeutral(cells: seq<Byte>, addr: nat, before: nat, data: seq<Byte>, after: nat)
    requires before <= addr
    ensures Program(cells, addr - before,
                    seq(before, _ => ERASED) + data + seq(after, _ => ERASED))
         == Program(cells, addr, data)
  {
    var padded := seq(before, _ => ERASED) + data + seq(after, _ => ERASED);
    var wide := Program(cells, addr - before, padded);
    var narrow := Program(cells, addr, data);
    forall i | 0 <= i < |cells|
      ensures wide[i] == narrow[i]
    {
      ByteAfterProgram(cells, addr - before, padded, i);
      ByteAfterProgram(cells, addr, data, i);
      AndErased(cells[i]);
      if addr <= i < addr + |data| {
        assert padded[i - (addr - before)] == data[i - addr];
      }
    }
  }

  lemma AndErased(b: Byte)
    ensures And(b, ERASED) == b && And(ERASED, b) == b
  {
  }

  /** Writing a then b next to it is writing a ++ b, wherever the split is. */
  lemma {:induction false} AdjacentWritesJoin(cells: seq<Byte>, addr: nat, a: seq<Byte>, b: seq<Byte>)
    ensures Program(Program(cells, addr, a), addr + |a|, b) == Program(cells, addr, a + b)
    decreases |a|
  {
    if a == [] {
      assert a + b == b;
    } else {
      AdjacentWritesJoin(ProgramByte(cells, addr, a[0]), addr + 1, a[1..], b);
      assert (a + b)[1..] == a[1..] + b;
    }
  }

  /** Any two writes commute, even when they overlap or share a word. */
  lemma WritesCommute(cells: seq<Byte>, v: Write, w: Write)
    ensures Program(Program(cells, v.addr, v.data), w.addr, w.data)
         == Program(Program(cells, w.addr, w.data), v.addr, v.data)
  {
    forall i: nat | i < |cells|
      ensures Program(Program(cells, v.addr, v.data), w.addr, w.data)[i]
           == Program(Program(cells, w.addr, w.data), v.addr, v.data)[i]
    {
      ByteAfterBoth(cells, v, w, i);
      ByteAfterBoth(cells, w, v, i);
      if Covers(v, i) && Covers(w, i) {
        AndRotates(cells[i], v.data[i - v.addr], w.data[i - w.addr]);
      }
    }
  }

  lemma ByteAfterBoth(cells: seq<Byte>, v: Write, w: Write, i: nat)
    requires i < |cells|
    ensures Program(Program(cells, v.addr, v.data), w.addr, w.data)[i]
         == var b := if Covers(v, i) then And(cells[i], v.data[i - v.addr]) else cells[i];
            if Covers(w, i) then And(b, w.data[i - w.addr]) else b
  {
    ByteAfterProgram(cells, v.addr, v.data, i);
    ByteAfterProgram(Program(cells, v.addr, v.data), w.addr, w.data, i);
  }

  lemma AndRotates(a: Byte, b: Byte, c: Byte)
    ensures And(And(a, b), c) == And(And(a, c), b)
  {
  }

  /** A write that stopped after `done` bytes is completed by doing it again. */
  lemma RetryCompletes(cells: seq<Byte>, addr: nat, data: seq<Byte>, done: nat)
    requires done <= |data|
    ensures Program(Program(cells, addr, data[..done]), addr, data) == Program(cells, addr, data)
  {
    var partial := Program(cells, addr, data[..done]);
    forall i | 0 <= i < |cells|
      ensures Program(partial, addr, data)[i] == Program(cells, addr, data)[i]
    {
      ByteAfterProgram(cells, addr, data[..done], i);
      ByteAfterProgram(cells, addr, data, i);
      ByteAfterProgram(partial, addr, data, i);
      if addr <= i < addr + done {
        AndAbsorbs(cells[i], data[i - addr]);
      }
    }
  }

  lemma AndAbsorbs(a: Byte, b: Byte)
    ensures And(And(a, b), b) == And(a, b)
  {
  }

  /** A list of writes may be done in any order. */
  lemma {:induction false} OrderDoesNotMatter(cells: seq<Byte>, vs: seq<Write>, ws: seq<Write>)
    requires multiset(vs) == multiset(ws)
    ensures ProgramAll(cells, vs) == ProgramAll(cells, ws)
    decreases |vs|
  {
    if vs == [] {
      assert |ws| == |multiset(vs)|;
    } else {
      var w := vs[0];
      assert w in multiset(ws);
      var k :| 0 <= k < |ws| && ws[k] == w;
      var rest := ws[..k] + ws[k + 1..];
      BringToFront(cells, ws, k);
      SameRest(vs, ws, k);
      OrderDoesNotMatter(Program(cells, w.addr, w.data), vs[1..], rest);
    }
  }

  lemma SameRest(vs: seq<Write>, ws: seq<Write>, k: nat)
    requires vs != [] && k < |ws| && ws[k] == vs[0] && multiset(vs) == multiset(ws)
    ensures multiset(vs[1..]) == multiset(ws[..k] + ws[k + 1..])
  {
    assert vs == [vs[0]] + vs[1..];
    assert ws == ws[..k] + [vs[0]] + ws[k + 1..];
    assert multiset(vs[1..]) == multiset(vs) - multiset{vs[0]};
    assert multiset(ws[..k] + ws[k + 1..]) == multiset(ws) - multiset{vs[0]};
  }

  lemma {:induction false} BringToFront(cells: seq<Byte>, ws: seq<Write>, k: nat)
    requires k < |ws|
    ensures ProgramAll(cells, ws)
         == ProgramAll(Program(cells, ws[k].addr, ws[k].data), ws[..k] + ws[k + 1..])
    decreases k
  {
    if k == 0 {
      assert ws[..0] + ws[1..] == ws[1..];
    } else {
      var head, tail := ws[0], ws[1..];
      BringToFront(Program(cells, head.addr, head.data), tail, k - 1);
      WritesCommute(cells, head, ws[k]);
      var rest := ws[..k] + ws[k + 1..];
      assert rest[0] == head;
      assert rest[1..] == tail[..k - 1] + tail[k..];
    }
  }

  /** A byte no write covers keeps its value. */
  lemma {:induction false} UncoveredByteKept(cells: seq<Byte>, writes: seq<Write>, i: nat)
    requires i < |cells| && forall w <- writes :: !Covers(w, i)
    ensures ProgramAll(cells, writes)[i] == cells[i]
    decreases |writes|
  {
    if writes != [] {
      assert writes[0] in writes;
      ByteAfterProgram(cells, writes[0].addr, writes[0].data, i);
      UncoveredByteKept(Program(cells, writes[0].addr, writes[0].data), writes[1..], i);
    }
  }

  /** A byte covered by exactly one of the writes is that write's doing alone. */
  lemma CoveredByteWritten(cells: seq<Byte>, writes: seq<Write>, i: nat, k: nat)
    requires i < |cells| && k < |writes| && Covers(writes[k], i)
    requires forall j :: 0 <= j < |writes| && j != k ==> !Covers(writes[j], i)
    ensures ProgramAll(cells, writes)[i] == Program(cells, writes[k].addr, writes[k].data)[i]
  {
    var rest := writes[..k] + writes[k + 1..];
    BringToFront(cells, writes, k);
    forall w <- rest
      ensures !Covers(w, i)
    {
      var j :| 0 <= j < |rest| && rest[j] == w;
      assert w == writes[if j < k then j else j + 1];
    }
    UncoveredByteKept(Program(cells, writes[k].addr, writes[k].data), rest, i);
  }

  /**
   * The promise a file system needs: after an erase, any disjoint writes in
   * any order (also within one word) read back exactly as written, and the
   * bytes nobody wrote are still erased.
   */
  lemma EraseThenWritesReadBack(cells: seq<Byte>, addr: nat, count: nat,
                                writes: seq<Write>, performed: seq<Write>)
    requires addr + count <= |cells|
    requires PairwiseDisjoint(writes) && multiset(performed) == multiset(writes)
    requires forall w <- writes :: addr <= w.addr && w.addr + |w.data| <= addr + count
    ensures var after := ProgramAll(Erase(cells, addr, count), performed);
            && (forall w <- writes :: after[w.addr..w.addr + |w.data|] == w.data)
            && (forall i :: addr <= i < addr + count && (forall w <- writes :: !Covers(w, i)) ==>
                  after[i] == ERASED)
            && (forall i :: 0 <= i < |cells| && !(addr <= i < addr + count) ==> after[i] == cells[i])
  {
    var erased := Erase(cells, addr, count);
    OrderDoesNotMatter(erased, performed, writes);
    var after := ProgramAll(erased, writes);
    forall w <- writes
      ensures after[w.addr..w.addr + |w.data|] == w.data
    {
      var k :| 0 <= k < |writes| && writes[k] == w;
      forall j | 0 <= j < |w.data|
        ensures after[w.addr + j] == w.data[j]
      {
        DisjointWriteReadsBack(erased, writes, k, j);
      }
    }
    forall i | 0 <= i < |cells| && (forall w <- writes :: !Covers(w, i))
      ensures after[i] == erased[i]
    {
      UncoveredByteKept(erased, writes, i);
    }
    forall i | 0 <= i < |cells| && !(addr <= i < addr + count)
      ensures after[i] == cells[i]
    {
      assert forall w <- writes :: !Covers(w, i);
    }
  }

  lemma DisjointWriteReadsBack(cells: seq<Byte>, writes: seq<Write>, k: nat, j: nat)
    requires PairwiseDisjoint(writes) && k < |writes| && j < |writes[k].data|
    requires writes[k].addr + j < |cells| && cells[writes[k].addr + j] == ERASED
    ensures ProgramAll(cells, writes)[writes[k].addr + j] == writes[k].data[j]
  {
    var w := writes[k];
    forall m | 0 <= m < |writes| && m != k
      ensures !Covers(writes[m], w.addr + j)
    {
      assert Disjoint(writes[if m < k then m else k], writes[if m < k then k else m]);
    }
    CoveredByteWritten(cells, writes, w.addr + j, k);
    ByteAfterProgram(cells, w.addr, w.data, w.addr + j);
    AndErased(w.data[j]);
  }
}
