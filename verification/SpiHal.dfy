/**
 * The SPIFFS hardware layer: byte-granular reads, writes and erases on top of
 * a chip that only takes aligned words.
 *
 * Two statements of the C code step a `uint32_t *` by a number of bytes. The
 * `PointerStep` parameter says what one such step is worth: `ByWord` is the
 * code as written (a factor of four), `ByByte` is what its author meant. Every
 * method is proved for both, and the lemmas say exactly where they differ.
 */
module SpiHal {
  import opened NorFlash

  const ADDRESS_SPACE: nat := 0x1_0000_0000
  const CHUNK: nat := 256

  datatype Status = Ok | ErrInternal

  datatype PointerStep = ByWord | ByByte {
    function Bytes(n: nat): nat {
      if ByWord? then 4 * n else n
    }
  }

  /** The contents of RAM, by address. */
  type Ram = seq<Byte>

  function U32(x: nat): nat {
    x % ADDRESS_SPACE
  }

  /** `x & ~3` */
  function MaskLow2(x: nat): nat {
    x / 4 * 4
  }

  predicate NonWrapping(addr: nat, size: nat) {
    addr + 3 < ADDRESS_SPACE && addr + size < ADDRESS_SPACE
  }

  /** A request and the word boundaries it is cut at. */
  datatype Span = Span(addr: nat, size: nat, begin: nat, end: nat) {
    predicate Valid() {
      && begin % 4 == 0 && end % 4 == 0
      && addr <= begin < addr + 4 && begin <= end && addr + size < end + 4
      && (end <= addr + size || (addr + size < begin && begin == end))
    }

    /** Bytes of the request before the first whole word. */
    function Head(): nat
      requires Valid()
    {
      if size < begin - addr then size else begin - addr
    }

    /** Bytes of the request in whole words. */
    function Middle(): nat
      requires Valid()
    {
      end - begin
    }

    /** Bytes of the request after the last whole word. */
    function Tail(): nat
      requires Valid()
    {
      size - Head() - Middle()
    }
  }

  function SpanOf(addr: nat, size: nat): (span: Span)
    requires NonWrapping(addr, size)
    ensures span.Valid() && span.addr == addr && span.size == size
  {
    var begin, end := MaskLow2(U32(addr + 3)), MaskLow2(U32(addr + size));
    assert U32(addr + 3) == addr + 3 && U32(addr + size) == addr + size;
    Span(addr, size, begin, if end < begin then begin else end)
  }

  /** memcpy into a small buffer */
  function Overwrite(buffer: seq<Byte>, at: nat, bytes: seq<Byte>): (after: seq<Byte>)
    requires at + |bytes| <= |buffer|
    ensures |after| == |buffer|
    ensures forall j :: 0 <= j < |after| ==>
              after[j] == if at <= j < at + |bytes| then bytes[j - at] else buffer[j]
  {
    buffer[..at] + bytes + buffer[at + |bytes|..]
  }

  // ---- writing ----

  /** The whole words go out of the caller's buffer directly when that is word aligned. */
  predicate Bounced(from: nat) {
    from % 4 != 0
  }

  /** How far the bounce loop's source pointer may reach. */
  function Reach(step: PointerStep, count: nat): nat {
    if count > CHUNK then step.Bytes(count) else count
  }

  /** What the bounce loop sends: its source pointer advances by pointer steps. */
  function Chunks(step: PointerStep, ram: Ram, from: nat, count: nat): (bytes: seq<Byte>)
    requires from + Reach(step, count) <= |ram|
    ensures |bytes| == count
    decreases count
  {
    if count <= CHUNK then ram[from..from + count]
    else ram[from..from + CHUNK] + Chunks(step, ram, from + step.Bytes(CHUNK), count - CHUNK)
  }

  /** The bytes sent for the whole words of a write. */
  function WordBytes(step: PointerStep, ram: Ram, from: nat, count: nat): (bytes: seq<Byte>)
    requires from + (if Bounced(from) then Reach(step, count) else count) <= |ram|
    ensures |bytes| == count
  {
    if Bounced(from) then Chunks(step, ram, from, count) else ram[from..from + count]
  }

  /** The caller's buffer, and whatever a wrong step makes the write read, are in RAM. */
  predicate SourceReadable(step: PointerStep, ram: Ram, span: Span, src: nat)
    requires span.Valid()
  {
    var from := src + span.Head();
    && src + span.size <= |ram|
    && from + (if Bounced(from) then Reach(step, span.Middle()) else span.Middle()) <= |ram|
  }

  /** A head, whole words and a tail, taken one after the other from `src`. */
  function ThreeParts(step: PointerStep, ram: Ram, src: nat, head: nat, middle: nat, tail: nat): (bytes: seq<Byte>)
    requires src + (head + middle) + tail <= |ram|
    requires src + head + (if Bounced(src + head) then Reach(step, middle) else middle) <= |ram|
    ensures |bytes| == head + middle + tail
  {
    var to := src + (head + middle);
    ram[src..src + head] + WordBytes(step, ram, src + head, middle) + ram[to..to + tail]
  }

  /** The bytes a write sends to flash, in address order. */
  function Sent(step: PointerStep, ram: Ram, span: Span, src: nat): (bytes: seq<Byte>)
    requires span.Valid() && SourceReadable(step, ram, span, src)
    ensures |bytes| == span.size
  {
    ThreeParts(step, ram, src, span.Head(), span.Middle(), span.Tail())
  }

  /** The condition under which a write sends the caller's bytes. */
  predicate WriteAsMeant(step: PointerStep, span: Span, src: nat)
    requires span.Valid()
  {
    step.ByByte? || span.Middle() <= CHUNK || !Bounced(src + span.Head())
  }

  /** Bytes `lo..hi` of `sent` have been programmed, counted from `addr`; no other byte changed. */
  ghost predicate Wrote(before: seq<Byte>, after: seq<Byte>, addr: nat, sent: seq<Byte>, lo: nat, hi: nat)
    requires hi <= |sent|
  {
    && |after| == |before|
    && forall i: nat :: i < |before| ==>
         after[i] == if addr + lo <= i < addr + hi then And(before[i], sent[i - addr]) else before[i]
  }

  /** `sent[lo..lo + count]` are the `count` bytes of RAM at `from`. */
  ghost predicate CopyOf(sent: seq<Byte>, lo: nat, ram: Ram, from: nat, count: nat) {
    && lo + count <= |sent| && from + count <= |ram|
    && forall i: nat :: lo <= i < lo + count ==> sent[i] == ram[from + (i - lo)]
  }

  /** `sent[lo..lo + count]` is what the bounce loop sends from `from`. */
  ghost predicate CopyOfChunks(step: PointerStep, sent: seq<Byte>, lo: nat, ram: Ram, from: nat, count: nat) {
    && lo + count <= |sent| && from + Reach(step, count) <= |ram|
    && sent[lo..lo + count] == Chunks(step, ram, from, count)
  }

  /** What `sent` holds in each of the three parts of a write. */
  ghost predicate InParts(sent: seq<Byte>, ram: Ram, src: nat, head: nat, words: seq<Byte>, tail: nat) {
    && |sent| == head + |words| + tail
    && CopyOf(sent, 0, ram, src, head)
    && sent[head..head + |words|] == words
    && CopyOf(sent, head + |words|, ram, src + (head + |words|), tail)
  }

  method MySpiWrite(chip: Chip, step: PointerStep, addr: nat, size: nat, ram: Ram, src: nat)
      returns (status: Status, ghost sent: seq<Byte>, ghost done: nat)
    requires NonWrapping(addr, size) && SourceReadable(step, ram, SpanOf(addr, size), src)
    modifies chip
    ensures chip.failures == old(chip.failures) + if status.Ok? then 0 else 1
    ensures sent == Sent(step, ram, SpanOf(addr, size), src)
    ensures WriteAsMeant(step, SpanOf(addr, size), src) ==> sent == ram[src..src + size]
    ensures done <= size && (status.Ok? ==> done == size)
    ensures chip.cells == Program(old(chip.cells), addr, sent[..done])
    ensures status.Ok? && size > 0 ==> addr + size <= |chip.cells|
  {
    var alignedBegin := MaskLow2(U32(addr + 3));
    var alignedEnd := MaskLow2(U32(addr + size));
    if alignedEnd < alignedBegin {
      alignedEnd := alignedBegin;
    }
    var span := Span(addr, size, alignedBegin, alignedEnd);
    assert span == SpanOf(addr, size);
    status, sent, done := WriteSpan(chip, step, span, ram, src);
  }

  /** The three parts of a write, once the word boundaries are known. */
  method WriteSpan(chip: Chip, step: PointerStep, span: Span, ram: Ram, src: nat)
      returns (status: Status, ghost sent: seq<Byte>, ghost done: nat)
    requires span.Valid() && SourceReadable(step, ram, span, src)
    modifies chip
    ensures chip.failures == old(chip.failures) + if status.Ok? then 0 else 1
    ensures sent == Sent(step, ram, span, src)
    ensures WriteAsMeant(step, span, src) ==> sent == ram[src..src + span.size]
    ensures done <= span.size && (status.Ok? ==> done == span.size)
    ensures chip.cells == Program(old(chip.cells), span.addr, sent[..done])
    ensures status.Ok? && span.size > 0 ==> span.addr + span.size <= |chip.cells|
  {
    SentIsInParts(step, ram, span, src);
    sent := Sent(step, ram, span, src);
    status, done := WriteParts(chip, step, span, ram, src, sent);
    WroteIsProgram(old(chip.cells), chip.cells, span.addr, sent, done);
  }

  method WriteParts(chip: Chip, step: PointerStep, span: Span, ram: Ram, src: nat, ghost sent: seq<Byte>)
      returns (status: Status, ghost done: nat)
    requires span.Valid() && SourceReadable(step, ram, span, src)
    requires InParts(sent, ram, src, span.Head(), WordBytes(step, ram, src + span.Head(), span.Middle()), span.Tail())
    modifies chip
    ensures chip.failures == old(chip.failures) + if status.Ok? then 0 else 1
    ensures done <= span.size && (status.Ok? ==> done == span.size)
    ensures Wrote(old(chip.cells), chip.cells, span.addr, sent, 0, done)
    ensures status.Ok? && span.size > 0 ==> span.addr + span.size <= |chip.cells|
  {
    ghost var before := chip.cells;
    status, done := Ok, 0;

    if span.addr < span.begin {
      status, done := WriteHead(chip, span, ram, src, sent);
      if status.ErrInternal? {
        return;
      }
    }

    ghost var headed := chip.cells;
    if span.end != span.begin {
      ghost var next;
      status, next := WriteMiddle(chip, step, span, ram, src + (span.begin - span.addr), sent);
      WroteJoin(before, headed, chip.cells, span.addr, sent, done, next);
      done := next;
      if status.ErrInternal? {
        return;
      }
    }

    ghost var filled := chip.cells;
    if span.addr + span.size > span.end {
      ghost var next;
      status, next := WriteTail(chip, span, ram, src + (span.end - span.addr), sent);
      WroteJoin(before, filled, chip.cells, span.addr, sent, done, next);
      done := next;
    }
  }

  /** The odd bytes before the first whole word, in a word padded with 0xff. */
  method WriteHead(chip: Chip, span: Span, ram: Ram, src: nat, ghost sent: seq<Byte>)
      returns (status: Status, ghost done: nat)
    requires span.Valid() && span.addr < span.begin && CopyOf(sent, 0, ram, src, span.Head())
    modifies chip
    ensures chip.failures == old(chip.failures) + if status.Ok? then 0 else 1
    ensures done == if status.Ok? then span.Head() else 0
    ensures Wrote(old(chip.cells), chip.cells, span.addr, sent, 0, done)
    ensures status.Ok? ==> span.begin <= |chip.cells|
  {
    var ofs := span.begin - span.addr;
    var nb := if span.size < ofs then span.size else ofs;
    var tmp := Overwrite([ERASED, ERASED, ERASED, ERASED], 4 - ofs, ram[src..src + nb]);
    var ok := chip.WriteWords(span.begin - 4, tmp);
    status, done := if ok then Ok else ErrInternal, if ok then nb else 0;
    if ok {
      ProgramPadded(old(chip.cells), span.begin - 4, tmp, span.addr, sent, 0, nb);
    }
  }

  /** The whole words, straight from the caller's buffer or through the bounce buffer. */
  method WriteMiddle(chip: Chip, step: PointerStep, span: Span, ram: Ram, src: nat, ghost sent: seq<Byte>)
      returns (status: Status, ghost done: nat)
    requires span.Valid() && span.begin < span.end
    requires src + (if Bounced(src) then Reach(step, span.Middle()) else span.Middle()) <= |ram|
    requires span.size <= |sent|
    requires sent[span.Head()..span.Head() + span.Middle()] == WordBytes(step, ram, src, span.Middle())
    modifies chip
    ensures chip.failures == old(chip.failures) + if status.Ok? then 0 else 1
    ensures span.Head() <= done <= span.Head() + span.Middle()
    ensures status.Ok? ==> done == span.Head() + span.Middle() && span.end <= |chip.cells|
    ensures Wrote(old(chip.cells), chip.cells, span.addr, sent, span.Head(), done)
  {
    done := span.Head();
    if src % 4 == 0 {
      var words := ram[src..src + (span.end - span.begin)];
      WholeWords(span.end, span.begin, span.end - span.begin, 0, span.begin);
      var ok := chip.WriteWords(span.begin, words);
      status := if ok then Ok else ErrInternal;
      if ok {
        ProgramPadded(old(chip.cells), span.begin, words, span.addr, sent, done, done + |words|);
        done := done + |words|;
      }
    } else {
      status, done := WriteBounced(chip, step, span, ram, src, sent);
    }
  }

  /** The bounce loop: one chunk at a time through an aligned buffer. */
  method WriteBounced(chip: Chip, step: PointerStep, span: Span, ram: Ram, src: nat, ghost sent: seq<Byte>)
      returns (status: Status, ghost done: nat)
    requires span.Valid() && span.begin < span.end
    requires CopyOfChunks(step, sent, span.Head(), ram, src, span.Middle())
    modifies chip
    ensures chip.failures == old(chip.failures) + if status.Ok? then 0 else 1
    ensures span.Head() <= done <= span.Head() + span.Middle()
    ensures status.Ok? ==> done == span.Head() + span.Middle() && span.end <= |chip.cells|
    ensures Wrote(old(chip.cells), chip.cells, span.addr, sent, span.Head(), done)
  {
    var addr, end := span.addr, span.end;
    ghost var first := span.Head();
    var srcLeftover: nat, aligned: nat, sizeLeft: nat := src, span.begin, end - span.begin;
    done := first;
    while sizeLeft > 0
      invariant aligned == addr + done && sizeLeft == end - aligned && aligned % 4 == 0
      invariant first <= done && end - addr <= |sent|
      invariant sizeLeft > 0 ==> CopyOfChunks(step, sent, done, ram, srcLeftover, sizeLeft)
      invariant Wrote(old(chip.cells), chip.cells, addr, sent, first, done)
      invariant done > first ==> aligned <= |chip.cells|
      invariant chip.failures == old(chip.failures)
    {
      var willCopy := if sizeLeft < CHUNK then sizeLeft else CHUNK;
      WholeWords(end, aligned, sizeLeft, willCopy, aligned + willCopy);
      NextChunk(step, sent, done, ram, srcLeftover, sizeLeft, willCopy);
      var next, left, source := aligned + willCopy, sizeLeft - willCopy, srcLeftover + step.Bytes(willCopy);
      ghost var sum := done + willCopy;
      assert next % 4 == 0;
      var ok := WriteChunk(chip, aligned, ram, srcLeftover, willCopy, addr, sent, done, sum, first, old(chip.cells));
      if !ok {
        return ErrInternal, done;
      }
      aligned, sizeLeft, srcLeftover, done := next, left, source, sum;
    }
    status := Ok;
  }

  /** One turn of the bounce loop: copy a chunk to the buffer and write the buffer. */
  method WriteChunk(chip: Chip, aligned: nat, ram: Ram, src: nat, count: nat,
                    ghost addr: nat, ghost sent: seq<Byte>, ghost lo: nat, ghost hi: nat,
                    ghost first: nat, ghost before: seq<Byte>)
      returns (ok: bool)
    requires CopyOf(sent, lo, ram, src, count) && addr + lo == aligned && hi == lo + count
    requires first <= lo && Wrote(before, chip.cells, addr, sent, first, lo)
    requires aligned % 4 == 0 && count % 4 == 0
    modifies chip
    ensures chip.failures == old(chip.failures) + if ok then 0 else 1
    ensures ok ==> aligned + count <= |chip.cells|
    ensures Wrote(before, chip.cells, addr, sent, first, if ok then hi else lo)
  {
    var buf := ram[src..src + count];
    ok := chip.WriteWords(aligned, buf);
    if ok {
      ProgramPadded(old(chip.cells), aligned, buf, addr, sent, lo, hi);
      WroteJoin(before, old(chip.cells), chip.cells, addr, sent, lo, hi, first);
    }
  }

  /** The odd bytes after the last whole word, in a word padded with 0xff. */
  method WriteTail(chip: Chip, span: Span, ram: Ram, src: nat, ghost sent: seq<Byte>)
      returns (status: Status, ghost done: nat)
    requires span.Valid() && span.addr + span.size > span.end
    requires CopyOf(sent, span.Head() + span.Middle(), ram, src, span.Tail())
    modifies chip
    ensures chip.failures == old(chip.failures) + if status.Ok? then 0 else 1
    ensures done == span.Head() + span.Middle() + if status.Ok? then span.Tail() else 0
    ensures Wrote(old(chip.cells), chip.cells, span.addr, sent, span.Head() + span.Middle(), done)
    ensures status.Ok? ==> span.addr + span.size <= |chip.cells|
  {
    var nb := span.addr + span.size - span.end;
    var tmp := Overwrite([ERASED, ERASED, ERASED, ERASED], 0, ram[src..src + nb]);
    var ok := chip.WriteWords(span.end, tmp);
    done := span.Head() + span.Middle();
    status := if ok then Ok else ErrInternal;
    if ok {
      ProgramPadded(old(chip.cells), span.end, tmp, span.addr, sent, done, done + nb);
      done := done + nb;
    }
  }

  /** Programming words that hold `sent[lo..hi]` in place and 0xff elsewhere. */
  lemma ProgramPadded(cells: seq<Byte>, at: nat, words: seq<Byte>, addr: nat, sent: seq<Byte>, lo: nat, hi: nat)
    requires hi <= |sent| && at <= addr + lo && addr + hi <= at + |words|
    requires forall j: nat :: j < |words| ==>
               words[j] == if addr + lo <= at + j < addr + hi then sent[at + j - addr] else ERASED
    ensures Wrote(cells, Program(cells, at, words), addr, sent, lo, hi)
  {
    forall i: nat | i < |cells|
      ensures Program(cells, at, words)[i]
           == if addr + lo <= i < addr + hi then And(cells[i], sent[i - addr]) else cells[i]
    {
      ByteAfterProgram(cells, at, words, i);
      AndErased(cells[i]);
    }
  }

  lemma WroteJoin(a: seq<Byte>, b: seq<Byte>, c: seq<Byte>, addr: nat, sent: seq<Byte>,
                  mid: nat, hi: nat, lo: nat := 0)
    requires lo <= mid <= hi <= |sent|
    requires Wrote(a, b, addr, sent, lo, mid) && Wrote(b, c, addr, sent, mid, hi)
    ensures Wrote(a, c, addr, sent, lo, hi)
  {
  }

  lemma WroteIsProgram(before: seq<Byte>, after: seq<Byte>, addr: nat, sent: seq<Byte>, done: nat)
    requires done <= |sent| && Wrote(before, after, addr, sent, 0, done)
    ensures after == Program(before, addr, sent[..done])
  {
    forall i: nat | i < |before|
      ensures after[i] == Program(before, addr, sent[..done])[i]
    {
      ByteAfterProgram(before, addr, sent[..done], i);
    }
  }

  /** What is left and a chunk of it, the last one too, are numbers of whole words. */
  lemma WholeWords(end: nat, from: nat, left: nat, chunk: nat, next: nat)
    requires end % 4 == 0 && from % 4 == 0 && left == end - from
    requires (chunk == left || chunk == CHUNK || chunk == 0) && next == from + chunk
    ensures left % 4 == 0 && chunk % 4 == 0 && next % 4 == 0
  {
  }

  /** One turn of the bounce loop takes the first chunk and leaves the rest a pointer step away. */
  lemma NextChunk(step: PointerStep, sent: seq<Byte>, lo: nat, ram: Ram, from: nat, count: nat, chunk: nat)
    requires count > 0 && chunk == if count < CHUNK then count else CHUNK
    requires CopyOfChunks(step, sent, lo, ram, from, count)
    ensures CopyOf(sent, lo, ram, from, chunk)
    ensures count > chunk ==>
              CopyOfChunks(step, sent, lo + chunk, ram, from + step.Bytes(chunk), count - chunk)
  {
    var all := Chunks(step, ram, from, count);
    if count > CHUNK {
      var rest := Chunks(step, ram, from + step.Bytes(CHUNK), count - CHUNK);
      assert all == ram[from..from + CHUNK] + rest;
      assert sent[lo + chunk..lo + chunk + (count - chunk)] == all[chunk..] == rest;
    }
    forall i: nat | lo <= i < lo + chunk
      ensures sent[i] == ram[from + (i - lo)]
    {
      assert sent[i] == sent[lo..lo + count][i - lo] == all[i - lo];
    }
  }

  lemma PartsAreInParts(ram: Ram, src: nat, head: nat, words: seq<Byte>, tail: nat)
    requires src + (head + |words|) + tail <= |ram|
    ensures var to := src + (head + |words|);
            InParts(ram[src..src + head] + words + ram[to..to + tail], ram, src, head, words, tail)
  {
  }

  lemma SentIsInParts(step: PointerStep, ram: Ram, span: Span, src: nat)
    requires span.Valid() && SourceReadable(step, ram, span, src)
    ensures InParts(Sent(step, ram, span, src), ram, src, span.Head(),
                    WordBytes(step, ram, src + span.Head(), span.Middle()), span.Tail())
    ensures WriteAsMeant(step, span, src) ==> Sent(step, ram, span, src) == ram[src..src + span.size]
  {
    PartsAreInParts(ram, src, span.Head(), WordBytes(step, ram, src + span.Head(), span.Middle()), span.Tail());
    if WriteAsMeant(step, span, src) {
      SentAsMeant(step, ram, span, src);
    }
  }

  lemma {:induction false} ChunksByByte(step: PointerStep, ram: Ram, from: nat, count: nat)
    requires step.ByByte? || count <= CHUNK
    requires from + count <= |ram|
    ensures Chunks(step, ram, from, count) == ram[from..from + count]
    decreases count
  {
    if count > CHUNK {
      ChunksByByte(step, ram, from + CHUNK, count - CHUNK);
    }
  }

  lemma SentAsMeant(step: PointerStep, ram: Ram, span: Span, src: nat)
    requires span.Valid() && SourceReadable(step, ram, span, src) && WriteAsMeant(step, span, src)
    ensures Sent(step, ram, span, src) == ram[src..src + span.size]
  {
    PartsAsMeant(step, ram, src, span.Head(), span.Middle(), span.Tail());
    assert span.Head() + span.Middle() + span.Tail() == span.size;
  }

  lemma PartsAsMeant(step: PointerStep, ram: Ram, src: nat, head: nat, middle: nat, tail: nat)
    requires step.ByByte? || middle <= CHUNK || !Bounced(src + head)
    requires src + (head + middle) + tail <= |ram|
    requires src + head + (if Bounced(src + head) then Reach(step, middle) else middle) <= |ram|
    ensures ThreeParts(step, ram, src, head, middle, tail) == ram[src..src + (head + middle + tail)]
  {
    if Bounced(src + head) {
      ChunksByByte(step, ram, src + head, middle);
    }
    assert WordBytes(step, ram, src + head, middle) == ram[src + head..src + head + middle];
  }

  /**
   * Exactly when a write sends the caller's bytes whatever they are: always
   * with byte steps, and as written only while the bounce loop runs once.
   */
  lemma WriteCorrectIff(step: PointerStep, span: Span, src: nat)
    requires span.Valid()
    ensures step.ByByte? || span.Middle() <= 256 || (src + span.Head()) % 4 == 0
       <==> forall ram: Ram :: SourceReadable(step, ram, span, src) ==>
              Sent(step, ram, span, src) == ram[src..src + span.size]
  {
    if WriteAsMeant(step, span, src) {
      forall ram: Ram | SourceReadable(step, ram, span, src)
        ensures Sent(step, ram, span, src) == ram[src..src + span.size]
      {
        SentAsMeant(step, ram, span, src);
      }
    } else {
      var ram := SecondChunkAstray(span, src);
    }
  }

  /** RAM in which stepping by words sends a wrong byte at the start of the second chunk. */
  lemma SecondChunkAstray(span: Span, src: nat) returns (ram: Ram)
    requires span.Valid() && !WriteAsMeant(ByWord, span, src)
    ensures SourceReadable(ByWord, ram, span, src)
    ensures Sent(ByWord, ram, span, src) != ram[src..src + span.size]
  {
    var head, middle := span.Head(), span.Middle();
    var from := src + head;
    ram := seq(src + 4 * span.size, _ => ERASED)[from + CHUNK := Flip(ERASED)];
    SecondChunk(ram, from, middle);
    PartsAreInParts(ram, src, head, Chunks(ByWord, ram, from, middle), span.Tail());
    assert Sent(ByWord, ram, span, src)[head..head + middle][CHUNK] == ERASED;
    assert ram[src..src + span.size][head + CHUNK] == ram[from + CHUNK];
  }

  lemma SecondChunk(ram: Ram, from: nat, count: nat)
    requires count > CHUNK && from + 4 * count <= |ram|
    ensures Chunks(ByWord, ram, from, count)[CHUNK] == ram[from + 4 * CHUNK]
  {
    var rest := Chunks(ByWord, ram, from + 4 * CHUNK, count - CHUNK);
    assert Chunks(ByWord, ram, from, count) == ram[from..from + CHUNK] + rest;
  }

  function Flip(b: Byte): (flipped: Byte)
    ensures flipped != b
  {
    b.(b0 := !b.b0)
  }

  // ---- reading ----

  /** The words a read touches are on the chip. */
  predicate OnChip(cells: seq<Byte>, span: Span) {
    && (span.addr < span.begin ==> span.begin <= |cells|)
    && (span.size > 0 ==> span.addr + span.size <= |cells|)
  }

  /**
   * Byte `i` of the head copy, which starts `4 - nb` pointer steps into the
   * word just read. Stepping by words it lands in `stack`, whatever lies
   * behind that word on the stack.
   */
  function HeadByte(step: PointerStep, cells: seq<Byte>, span: Span, stack: seq<Byte>, i: nat): Byte
    requires span.Valid() && i < span.begin - span.addr && span.begin <= |cells| && |stack| == 12
  {
    var at := step.Bytes(4 - (span.begin - span.addr)) + i;
    if at < 4 then cells[span.begin - 4 + at] else stack[at - 4]
  }

  /**
   * Byte `i` of the destination after a successful read. The head copy takes
   * all its bytes, however short the request is.
   */
  function ReadByte(step: PointerStep, cells: seq<Byte>, span: Span, stack: seq<Byte>, was: Byte, i: nat): Byte
    requires span.Valid() && OnChip(cells, span) && |stack| == 12
  {
    if i < span.begin - span.addr then HeadByte(step, cells, span, stack, i)
    else if i < span.size then cells[span.addr + i]
    else was
  }

  /** The condition under which a read delivers the flash bytes and nothing else. */
  predicate ReadAsMeant(step: PointerStep, span: Span) {
    if step.ByWord? then span.addr == span.begin else span.begin <= span.addr + span.size
  }

  method MySpiRead(chip: Chip, step: PointerStep, addr: nat, size: nat, dst: array<Byte>, stack: seq<Byte>)
      returns (status: Status)
    requires NonWrapping(addr, size) && |stack| == 12
    requires size <= dst.Length && SpanOf(addr, size).begin - addr <= dst.Length
    modifies dst, chip`failures
    ensures chip.failures == old(chip.failures) + if status.Ok? then 0 else 1
    ensures status.Ok? ==> OnChip(chip.cells, SpanOf(addr, size))
    ensures status.Ok? ==> forall i :: 0 <= i < dst.Length ==>
              dst[i] == ReadByte(step, chip.cells, SpanOf(addr, size), stack, old(dst[i]), i)
    ensures status.Ok? && ReadAsMeant(step, SpanOf(addr, size)) ==> forall i :: 0 <= i < dst.Length ==>
              dst[i] == if i < size then chip.cells[addr + i] else old(dst[i])
    ensures forall i :: size <= i < dst.Length && SpanOf(addr, size).begin - addr <= i ==> dst[i] == old(dst[i])
  {
    var alignedBegin := MaskLow2(U32(addr + 3));
    var alignedEnd := MaskLow2(U32(addr + size));
    if alignedEnd < alignedBegin {
      alignedEnd := alignedBegin;
    }
    var span := Span(addr, size, alignedBegin, alignedEnd);
    assert span == SpanOf(addr, size);
    status := ReadSpan(chip, step, span, dst, stack);
    if status.Ok? && ReadAsMeant(step, span) {
      ReadIsMeant(step, chip.cells, span, stack);
    }
  }

  /** The three parts of a read, once the word boundaries are known. */
  method ReadSpan(chip: Chip, step: PointerStep, span: Span, dst: array<Byte>, stack: seq<Byte>)
      returns (status: Status)
    requires span.Valid() && |stack| == 12
    requires span.size <= dst.Length && span.begin - span.addr <= dst.Length
    modifies dst, chip`failures
    ensures chip.failures == old(chip.failures) + if status.Ok? then 0 else 1
    ensures status.Ok? ==> OnChip(chip.cells, span)
    ensures status.Ok? ==> forall i :: 0 <= i < dst.Length ==>
              dst[i] == ReadByte(step, chip.cells, span, stack, old(dst[i]), i)
    ensures forall i :: span.size <= i < dst.Length && span.begin - span.addr <= i ==> dst[i] == old(dst[i])
  {
    if span.addr < span.begin {
      var ok := ReadHead(chip, step, span, dst, stack);
      if !ok {
        return ErrInternal;
      }
    }

    if span.end != span.begin {
      WholeWords(span.end, span.begin, span.end - span.begin, 0, span.begin);
      var ok := ReadBytes(chip, span.addr, dst, span.begin - span.addr, span.end - span.addr,
                          span.end - span.begin);
      if !ok {
        return ErrInternal;
      }
    }

    if span.addr + span.size > span.end {
      var ok := ReadBytes(chip, span.addr, dst, span.end - span.addr, span.size, 4);
      if !ok {
        return ErrInternal;
      }
    }
    status := Ok;
  }

  /** Reads `count` bytes of words at `addr + lo` and keeps those for `dst[lo..hi]`. */
  method ReadBytes(chip: Chip, addr: nat, dst: array<Byte>, lo: nat, hi: nat, count: nat) returns (ok: bool)
    requires (addr + lo) % 4 == 0 && count % 4 == 0 && lo <= hi <= lo + count && hi <= dst.Length
    modifies dst, chip`failures
    ensures chip.failures == old(chip.failures) + if ok then 0 else 1
    ensures ok ==> addr + lo + count <= |chip.cells|
    ensures forall i :: 0 <= i < dst.Length ==>
              dst[i] == if ok && lo <= i < hi then chip.cells[addr + i] else old(dst[i])
  {
    var words;
    ok, words := chip.ReadWords(addr + lo, count);
    if ok {
      CopyInto(dst, lo, words[..hi - lo]);
    }
  }

  /** The odd bytes before the first whole word, from `4 - nb` pointer steps into it. */
  method ReadHead(chip: Chip, step: PointerStep, span: Span, dst: array<Byte>, stack: seq<Byte>)
      returns (ok: bool)
    requires span.Valid() && span.addr < span.begin && |stack| == 12 && span.begin - span.addr <= dst.Length
    modifies dst, chip`failures
    ensures chip.failures == old(chip.failures) + if ok then 0 else 1
    ensures ok ==> span.begin <= |chip.cells|
    ensures ok ==> forall i :: 0 <= i < dst.Length ==>
              dst[i] == if i < span.begin - span.addr then HeadByte(step, chip.cells, span, stack, i)
                        else old(dst[i])
    ensures !ok ==> dst[..] == old(dst[..])
  {
    var nb := span.begin - span.addr;
    var tmp;
    ok, tmp := chip.ReadWords(span.begin - 4, 4);
    if ok {
      var at := step.Bytes(4 - nb);
      CopyInto(dst, 0, (tmp + stack)[at..at + nb]);
    }
  }

  /** memcpy to `dst + at` */
  method CopyInto(dst: array<Byte>, at: nat, bytes: seq<Byte>)
    requires at + |bytes| <= dst.Length
    modifies dst
    ensures forall i :: 0 <= i < dst.Length ==>
              dst[i] == if at <= i < at + |bytes| then bytes[i - at] else old(dst[i])
  {
    for k := 0 to |bytes|
      invariant forall i :: 0 <= i < dst.Length ==>
                  dst[i] == if at <= i < at + k then bytes[i - at] else old(dst[i])
    {
      dst[at + k] := bytes[k];
    }
  }

  lemma ReadIsMeant(step: PointerStep, cells: seq<Byte>, span: Span, stack: seq<Byte>)
    requires span.Valid() && OnChip(cells, span) && |stack| == 12
    requires ReadAsMeant(step, span)
    ensures forall was: Byte, i: nat ::
              ReadByte(step, cells, span, stack, was, i) == if i < span.size then cells[span.addr + i] else was
  {
  }

  /** Exactly when a read is right, whatever the destination and the stack held before. */
  lemma ReadCorrectIff(step: PointerStep, cells: seq<Byte>, span: Span)
    requires span.Valid() && OnChip(cells, span)
    ensures ReadAsMeant(step, span)
       <==> forall stack: seq<Byte>, was: Byte, i: nat :: |stack| == 12 ==>
              ReadByte(step, cells, span, stack, was, i) == if i < span.size then cells[span.addr + i] else was
  {
    if ReadAsMeant(step, span) {
      forall stack: seq<Byte>, was: Byte, i: nat | |stack| == 12
        ensures ReadByte(step, cells, span, stack, was, i) == if i < span.size then cells[span.addr + i] else was
      {
        ReadIsMeant(step, cells, span, stack);
      }
    } else if step.ByWord? {
      // The first byte comes off the stack, whatever the flash holds.
      var right := if span.size > 0 then cells[span.addr] else ERASED;
      assert ReadByte(step, cells, span, seq(12, _ => Flip(right)), right, 0) == Flip(right);
    } else {
      // The head copy runs past a request that ends inside the first word.
      var was := Flip(cells[span.addr + span.size]);
      assert ReadByte(step, cells, span, seq(12, _ => ERASED), was, span.size) != was;
    }
  }

  // ---- erasing ----

  /** A misaligned request is logged and rounded down, not refused. */
  method MySpiErase(chip: Chip, addr: nat, size: nat) returns (status: Status, ghost done: nat)
    requires NonWrapping(addr, size)
    modifies chip
    ensures chip.failures == old(chip.failures) + if status.Ok? then 0 else 1
    ensures done <= size / SECTOR && (status.Ok? ==> done == size / SECTOR)
    ensures chip.cells == Erase(old(chip.cells), addr / SECTOR * SECTOR, done * SECTOR)
    ensures status.Ok? && size % SECTOR == 0 && addr % SECTOR == 0 ==>
              chip.cells == Erase(old(chip.cells), addr, size)
  {
    var sector, sectorCount := addr / SECTOR, size / SECTOR;
    done := 0;
    var i := 0;
    while i < sectorCount
      invariant i == done <= sectorCount
      invariant chip.cells == Erase(old(chip.cells), sector * SECTOR, done * SECTOR)
      invariant chip.failures == old(chip.failures)
    {
      var ok := chip.EraseSector(sector + i);
      if !ok {
        return ErrInternal, done;
      }
      i, done := i + 1, done + 1;
    }
    status := Ok;
  }
}
