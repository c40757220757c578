/** Writing a buffer to a non-blocking socket, with bounded retries. */
module SocketWriter {
  import opened Prelude

  const MAX_RETRIES: int := 40

  /** What write() answered: a number of bytes taken, EAGAIN, another error, or zero. */
  datatype WriteResult = Took(count: nat) | WouldBlock | Broken | TookNothing

  /** Bytes taken by these write() calls together. */
  function Taken(results: seq<WriteResult>): nat {
    if results == [] then 0
    else Taken(results[..|results| - 1])
         + match results[|results| - 1] case Took(count) => count case _ => 0
  }

  /** How many of the last calls in a row would have blocked. */
  function Blocked(results: seq<WriteResult>): nat {
    if results == [] || !results[|results| - 1].WouldBlock? then 0
    else 1 + Blocked(results[..|results| - 1])
  }

  /** After these results the connection is closed. */
  predicate GivesUp(results: seq<WriteResult>) {
    && results != []
    && (results[|results| - 1].Broken? || results[|results| - 1].TookNothing? || Blocked(results) > MAX_RETRIES)
  }

  lemma {:induction false} BlockedIff(results: seq<WriteResult>, n: nat)
    ensures Blocked(results) >= n
       <==> n <= |results| && forall k :: |results| - n <= k < |results| ==> results[k].WouldBlock?
    decreases |results|
  {
    if results != [] && n > 0 {
      BlockedIff(results[..|results| - 1], n - 1);
    }
  }

  /** The connection is closed at the first error, at a write of nothing, or at the 41st EAGAIN in a row. */
  lemma GivesUpIff(results: seq<WriteResult>)
    ensures GivesUp(results)
       <==> && results != []
            && (|| results[|results| - 1] in {Broken, TookNothing}
                || (41 <= |results| && forall k :: |results| - 41 <= k < |results| ==> results[k].WouldBlock?))
  {
    BlockedIff(results, 41);
  }

  /** Every result so far took a byte or was retried. */
  ghost predicate KeepsGoing(results: seq<WriteResult>) {
    && (forall k :: 0 <= k <= |results| ==> !GivesUp(results[..k]))
    && (forall r <- results :: r.Took? ==> r.count > 0)
  }

  /** A socket that takes what it likes; `wire` is what the peer will see. */
  class Connection {
    var wire: Bytes
    var closes: nat
    ghost var results: seq<WriteResult>

    method Write(bytes: Bytes) returns (result: WriteResult)
      requires bytes != []
      modifies this`wire, this`results
      ensures results == old(results) + [result]
      ensures result.Took? ==> 0 < result.count <= |bytes|
      ensures wire == old(wire) + if result.Took? then bytes[..result.count] else []
    {
      result := *;
      if result.Took? && !(0 < result.count <= |bytes|) {
        result := TookNothing;
      }
      if result.Took? {
        wire := wire + bytes[..result.count];
      }
      results := results + [result];
    }

    method Close()
      modifies this`closes
      ensures closes == old(closes) + 1
    {
      closes := closes + 1;
    }
  }

  /**
   * The bytes sent are the front of the buffer: all of it with no close, or a
   * proper part of it with exactly one. The connection is closed at the first
   * error, or at the 41st EAGAIN in a row.
   */
  method WriteToSocket(conn: Connection, buffer: Bytes, len: int)
      returns (retval: int, ghost rs: seq<WriteResult>)
    requires len <= |buffer|
    modifies conn
    ensures conn.results == old(conn.results) + rs
    ensures conn.closes == old(conn.closes) + if GivesUp(rs) then 1 else 0
    ensures forall k :: 0 <= k < |rs| ==> !GivesUp(rs[..k])
    ensures Taken(rs) <= (if len > 0 then len else 0)
    ensures conn.wire == old(conn.wire) + buffer[..Taken(rs)]
    ensures if GivesUp(rs) then Taken(rs) < len else len <= Taken(rs)
    ensures if len > 0 then |rs| <= 41 * len else rs == []
    ensures retval == 0
  {
    retval := 0;
    var totalSent, remainingLen, retryCnt := 0, len, 0;
    ghost var before, wire := conn.results, conn.wire;
    rs := [];
    while totalSent < len
      invariant conn.results == before + rs && conn.closes == old(conn.closes)
      invariant totalSent == Taken(rs) && remainingLen == len - totalSent && 0 <= retryCnt == Blocked(rs) <= MAX_RETRIES
      invariant totalSent <= if len > 0 then len else 0
      invariant KeepsGoing(rs) && conn.wire == wire + buffer[..totalSent]
      invariant len <= 0 ==> rs == []
      invariant totalSent >= len ==> retryCnt == 0
      decreases len - totalSent, MAX_RETRIES - retryCnt
    {
      ghost var was := rs;
      var writeRet := conn.Write(buffer[totalSent..totalSent + remainingLen]);
      rs := rs + [writeRet];
      OneMore(was, writeRet);
      if writeRet.WouldBlock? && retryCnt < MAX_RETRIES {
        retryCnt := retryCnt + 1;
      } else if writeRet.Took? {
        WireGrows(wire, buffer, totalSent, remainingLen, writeRet.count);
        totalSent := totalSent + writeRet.count;
        remainingLen := remainingLen - writeRet.count;
        retryCnt := 0;
      } else {
        conn.Close();
        CallsBounded(was);
        assert forall k :: 0 <= k < |rs| ==> rs[..k] == was[..k];
        return;
      }
    }
    CallsBounded(rs);
    assert rs[..|rs|] == rs;
    assert forall k :: 0 <= k < |rs| ==> !GivesUp(rs[..k]);
  }

  lemma WireGrows(wire: Bytes, buffer: Bytes, sent: nat, remaining: nat, count: nat)
    requires sent + remaining <= |buffer| && count <= remaining
    ensures wire + buffer[..sent] + buffer[sent..sent + remaining][..count] == wire + buffer[..sent + count]
  {
  }

  lemma OneMore(results: seq<WriteResult>, r: WriteResult)
    requires KeepsGoing(results) && (r.Took? ==> r.count > 0)
    ensures Taken(results + [r]) == Taken(results) + if r.Took? then r.count else 0
    ensures Blocked(results + [r]) == if r.WouldBlock? then 1 + Blocked(results) else 0
    ensures KeepsGoing(results + [r]) <==> !GivesUp(results + [r])
  {
    var all := results + [r];
    assert all[..|results|] == results && all[..|all|] == all;
    assert forall k :: 0 <= k <= |results| ==> all[..k] == results[..k];
  }

  /** Each byte taken pays for at most MAX_RETRIES retries and the call that took it. */
  lemma {:induction false} CallsBounded(results: seq<WriteResult>)
    requires KeepsGoing(results)
    ensures |results| <= 41 * Taken(results) + Blocked(results)
    ensures Blocked(results) <= MAX_RETRIES
    decreases |results|
  {
    if results != [] {
      var init, last := results[..|results| - 1], results[|results| - 1];
      assert results == init + [last] && results[..|results|] == results;
      assert forall k :: 0 <= k <= |init| ==> init[..k] == results[..k];
      CallsBounded(init);
      OneMore(init, last);
    }
  }
}
