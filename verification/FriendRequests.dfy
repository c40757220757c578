/**
 * Push notifications for friend requests: a list of the requests already
 * announced, marked and swept against each new response.
 */
module FriendRequests {
  import opened Prelude

  const MAX_REQUESTS: nat := 4

  type Ruid = Bytes

  datatype Alias = Text(name: string) | Missing | OtherType

  /**
   * One friend request of a response: its ruid when that is binary data, its
   * alias, and what the cloud state and the allocator are when its turn comes.
   */
  datatype Request = Request(ruid: Option<Ruid>, alias: Alias, online: bool, mallocOk: bool)

  datatype Entry = Entry(ruid: Ruid, active: bool)

  datatype Note = Note(ruid: Ruid, alias: string)

  function Ruids(entries: seq<Entry>): (rs: seq<Ruid>)
    ensures |rs| == |entries|
    ensures forall i :: 0 <= i < |rs| ==> rs[i] == entries[i].ruid
  {
    if entries == [] then [] else Ruids(entries[..|entries| - 1]) + [entries[|entries| - 1].ruid]
  }

  function Sweep(entries: seq<Entry>): (kept: seq<Entry>) {
    if entries == [] then []
    else Sweep(entries[..|entries| - 1])
         + if entries[|entries| - 1].active then [entries[|entries| - 1]] else []
  }

  function Mark(entries: seq<Entry>, r: Ruid): (marked: seq<Entry>)
    ensures |marked| == |entries|
    ensures forall i :: 0 <= i < |marked| ==>
              marked[i] == if entries[i].ruid == r then entries[i].(active := true) else entries[i]
  {
    if entries == [] then []
    else
      var e := entries[|entries| - 1];
      Mark(entries[..|entries| - 1], r) + [if e.ruid == r then e.(active := true) else e]
  }

  // ---- the specification ----

  /** The requests a callback looks at: the first four, up to the first without a ruid. */
  function Looked(response: seq<Request>): (looked: seq<Request>)
    ensures |looked| <= MAX_REQUESTS && |looked| <= |response|
    ensures looked == response[..|looked|]
    ensures forall q <- looked :: q.ruid.Some?
    ensures |looked| == 4 || |looked| == |response| || response[|looked|].ruid.None?
  {
    LookedFrom(response, 0)
  }

  function LookedFrom(response: seq<Request>, i: nat): (looked: seq<Request>)
    requires i <= |response| && i <= MAX_REQUESTS && forall q <- response[..i] :: q.ruid.Some?
    ensures i <= |looked| <= MAX_REQUESTS && |looked| <= |response|
    ensures looked == response[..|looked|]
    ensures forall q <- looked :: q.ruid.Some?
    ensures |looked| == MAX_REQUESTS || |looked| == |response| || response[|looked|].ruid.None?
    decreases MAX_REQUESTS - i
  {
    if i == MAX_REQUESTS || i == |response| || response[i].ruid.None? then response[..i]
    else
      assert response[..i + 1] == response[..i] + [response[i]];
      LookedFrom(response, i + 1)
  }

  /** What going through requests finds: ruids seen again, ruids added, notifications sent. */
  datatype Findings = Findings(seen: set<Ruid>, added: seq<Ruid>, notes: seq<Note>, stopped: bool)

  /** One more request, when `known` is on the list. */
  function FindOne(f: Findings, known: set<Ruid>, q: Request): Findings
    requires q.ruid.Some?
  {
    var r := q.ruid.value;
    if f.stopped then f
    else if r in known || r in f.added then f.(seen := f.seen + {r})
    else if !q.online then f
    else if !q.mallocOk then f.(stopped := true)
    else if q.alias.Text? then f.(added := f.added + [r], notes := f.notes + [Note(r, q.alias.name)])
    else f.(added := f.added + [r], stopped := true)
  }

  function Find(known: set<Ruid>, looked: seq<Request>): Findings
    requires forall q <- looked :: q.ruid.Some?
  {
    if looked == [] then Findings({}, [], [], false)
    else
      assert looked[|looked| - 1] in looked && forall q <- looked[..|looked| - 1] :: q in looked;
      FindOne(Find(known, looked[..|looked| - 1]), known, looked[|looked| - 1])
  }

  function Elements<T>(s: seq<T>): set<T> {
    set x | x in s
  }

  function Keep(rs: seq<Ruid>, seen: set<Ruid>): seq<Ruid> {
    if rs == [] then []
    else Keep(rs[..|rs| - 1], seen) + if rs[|rs| - 1] in seen then [rs[|rs| - 1]] else []
  }

  ghost predicate NoDuplicates(rs: seq<Ruid>) {
    forall i, j :: 0 <= i < j < |rs| ==> rs[i] != rs[j]
  }

  // ---- the callback as the C code runs it ----

  class FriendRequestList {
    var entries: seq<Entry>

    constructor ()
      ensures entries == []
    {
      entries := [];
    }

    /** The list becomes the survivors followed by the new ones, and the new ones with an alias are announced. */
    method Callback(response: seq<Request>) returns (notes: seq<Note>)
      modifies this
      ensures var f := Find(Elements(old(Ruids(entries))), Looked(response));
              Ruids(entries) == Keep(old(Ruids(entries)), f.seen) + f.added && notes == f.notes
    {
      ghost var before := Ruids(entries);
      entries := AllInactive(entries);
      notes := MarkAndAppend(response, before);
      ghost var f := Find(Elements(before), Looked(response));
      SweepKeeps(entries, before, f.seen, f.added);
      entries := Sweep(entries);
    }

    /** Goes through the requests: listed ones become active, new ones are appended and announced. */
    method MarkAndAppend(response: seq<Request>, ghost before: seq<Ruid>) returns (notes: seq<Note>)
      requires Marked(entries, before, {}, [])
      modifies this
      ensures var f := Find(Elements(before), Looked(response));
              Marked(entries, before, f.seen, f.added) && notes == f.notes
    {
      ghost var known, looked := Elements(before), Looked(response);
      ghost var f := Findings({}, [], [], false);
      notes := [];
      var i := 0;
      while i < MAX_REQUESTS
        invariant 0 <= i <= |looked| && i <= MAX_REQUESTS
        invariant f == Find(known, looked[..i]) && !f.stopped && notes == f.notes
        invariant Marked(entries, before, f.seen, f.added)
      {
        if i >= |response| || response[i].ruid.None? {
          break;
        }
        var q := response[i];
        var ruid := q.ruid.value;
        FindNext(known, looked, i);
        ListedIff(entries, before, f, ruid);
        f := FindOne(f, known, q);
        i := i + 1;
        var newFriendReq := ruid !in Ruids(entries);
        if !newFriendReq {
          entries := Mark(entries, ruid);
          continue;
        }
        if !q.online {
          continue;
        }
        if !q.mallocOk {
          break;
        }
        entries := entries + [Entry(ruid, true)];
        if q.alias.Text? {
          notes := notes + [Note(ruid, q.alias.name)];
        } else {
          break;
        }
      }
      StoppedEarly(known, looked, i);
    }
  }

  function AllInactive(entries: seq<Entry>): (cleared: seq<Entry>)
    ensures |cleared| == |entries|
    ensures forall i :: 0 <= i < |cleared| ==> cleared[i] == Entry(entries[i].ruid, false)
  {
    if entries == [] then [] else AllInactive(entries[..|entries| - 1]) + [Entry(entries[|entries| - 1].ruid, false)]
  }

  /** The list while the requests are gone through: the old ones, active if seen, then the added ones, all active. */
  ghost predicate Marked(entries: seq<Entry>, before: seq<Ruid>, seen: set<Ruid>, added: seq<Ruid>) {
    && |entries| == |before| + |added|
    && (forall i :: 0 <= i < |before| ==> entries[i] == Entry(before[i], before[i] in seen))
    && (forall i :: 0 <= i < |added| ==> entries[|before| + i] == Entry(added[i], true))
  }

  lemma ListedIff(entries: seq<Entry>, before: seq<Ruid>, f: Findings, r: Ruid)
    requires Marked(entries, before, f.seen, f.added)
    ensures r in Ruids(entries) <==> r in Elements(before) || r in f.added
  {
    var rs := Ruids(entries);
    assert forall i :: 0 <= i < |before| ==> rs[i] == before[i];
    assert forall i :: 0 <= i < |f.added| ==> rs[|before| + i] == f.added[i];
    if r in rs {
      var i :| 0 <= i < |rs| && rs[i] == r;
      assert i >= |before| ==> r == f.added[i - |before|];
    }
  }

  lemma FindNext(known: set<Ruid>, looked: seq<Request>, i: nat)
    requires i < |looked| && forall q <- looked :: q.ruid.Some?
    ensures Find(known, looked[..i + 1]) == FindOne(Find(known, looked[..i]), known, looked[i])
  {
    assert looked[..i + 1][..i] == looked[..i];
  }

  /** Requests after the one that ended the loop find nothing. */
  lemma {:induction false} StoppedEarly(known: set<Ruid>, looked: seq<Request>, done: nat)
    requires done <= |looked| && forall q <- looked :: q.ruid.Some?
    requires done == |looked| || Find(known, looked[..done]).stopped
    ensures Find(known, looked) == Find(known, looked[..done])
    decreases |looked|
  {
    assert looked[..|looked|] == looked;
    if done < |looked| {
      var init := looked[..|looked| - 1];
      assert init[..done] == looked[..done] && forall q <- init :: q in looked;
      StoppedEarly(known, init, done);
    }
  }

  lemma {:induction false} SweepKeeps(entries: seq<Entry>, before: seq<Ruid>, seen: set<Ruid>, added: seq<Ruid>)
    requires Marked(entries, before, seen, added)
    ensures Ruids(Sweep(entries)) == Keep(before, seen) + added
    decreases |added|
  {
    if added == [] {
      SweepOld(entries, before, seen);
    } else {
      var init, rest, r := entries[..|entries| - 1], added[..|added| - 1], added[|added| - 1];
      SweepKeeps(init, before, seen, rest);
      assert entries[|entries| - 1] == Entry(r, true);
      RuidsAppend(Sweep(init), Entry(r, true));
      AppendAssociates(Keep(before, seen), rest, added, r);
    }
  }

  lemma AppendAssociates(a: seq<Ruid>, b: seq<Ruid>, c: seq<Ruid>, r: Ruid)
    requires c != [] && b == c[..|c| - 1] && r == c[|c| - 1]
    ensures a + b + [r] == a + c
  {
  }

  lemma {:induction false} SweepOld(entries: seq<Entry>, before: seq<Ruid>, seen: set<Ruid>)
    requires |entries| == |before|
    requires forall i :: 0 <= i < |before| ==> entries[i] == Entry(before[i], before[i] in seen)
    ensures Ruids(Sweep(entries)) == Keep(before, seen)
    decreases |entries|
  {
    if entries != [] {
      SweepOld(entries[..|entries| - 1], before[..|before| - 1], seen);
      if entries[|entries| - 1].active {
        RuidsAppend(Sweep(entries[..|entries| - 1]), entries[|entries| - 1]);
      } else {
        assert Sweep(entries) == Sweep(entries[..|entries| - 1]);
      }
    }
  }

  lemma RuidsAppend(entries: seq<Entry>, e: Entry)
    ensures Ruids(entries + [e]) == Ruids(entries) + [e.ruid]
  {
    assert (entries + [e])[..|entries|] == entries;
  }

  // ---- what the specification means ----

  function Asked(looked: seq<Request>): set<Ruid>
    requires forall q <- looked :: q.ruid.Some?
  {
    set q | q in looked :: q.ruid.value
  }

  /** Whatever fails, findings name requests of this response, and name a new one once. */
  lemma {:induction false} FindingsAreOfThisResponse(known: set<Ruid>, looked: seq<Request>)
    requires forall q <- looked :: q.ruid.Some?
    ensures var f := Find(known, looked);
            && f.seen <= Asked(looked) && Elements(f.added) <= Asked(looked) - known
            && NoDuplicates(f.added)
            && |f.notes| <= |f.added| && (forall i :: 0 <= i < |f.notes| ==> f.notes[i].ruid == f.added[i])
            && |f.added| <= |f.notes| + (if f.stopped then 1 else 0)
    decreases |looked|
  {
    if looked != [] {
      var init, q := looked[..|looked| - 1], looked[|looked| - 1];
      assert forall p <- init :: p in looked;
      assert looked == init + [q];
      assert Asked(looked) == Asked(init) + {q.ruid.value};
      FindingsAreOfThisResponse(known, init);
      var f, g := Find(known, init), Find(known, looked);
      if g.added != f.added {
        assert g.added == f.added + [q.ruid.value] && q.ruid.value !in f.added;
        assert Elements(g.added) == Elements(f.added) + {q.ruid.value};
      }
    }
  }

  lemma {:induction false} KeptAreOld(rs: seq<Ruid>, seen: set<Ruid>)
    ensures Elements(Keep(rs, seen)) == Elements(rs) * seen
    ensures NoDuplicates(rs) ==> NoDuplicates(Keep(rs, seen))
    ensures |Keep(rs, seen)| <= |rs|
    decreases |rs|
  {
    if rs != [] {
      var init, last := rs[..|rs| - 1], rs[|rs| - 1];
      KeptAreOld(init, seen);
      assert rs == init + [last];
      assert Elements(rs) == Elements(init) + {last};
      assert Keep(rs, seen) == Keep(init, seen) + if last in seen then [last] else [];
      if last in seen {
        assert Elements(Keep(rs, seen)) == Elements(Keep(init, seen)) + {last};
        if NoDuplicates(rs) {
          assert last !in init && last !in Elements(Keep(init, seen));
        }
      } else {
        assert Keep(rs, seen) == Keep(init, seen);
      }
    }
  }

  /** Keeping is done entry by entry, so it keeps the order. */
  lemma {:induction false} KeepJoins(a: seq<Ruid>, b: seq<Ruid>, seen: set<Ruid>)
    ensures Keep(a + b, seen) == Keep(a, seen) + Keep(b, seen)
    decreases |b|
  {
    if b == [] {
      assert a + b == a;
    } else {
      assert (a + b)[..|a + b| - 1] == a + b[..|b| - 1];
      KeepJoins(a, b[..|b| - 1], seen);
    }
  }

  lemma {:induction false} SizeWithoutDuplicates(rs: seq<Ruid>)
    requires NoDuplicates(rs)
    ensures |Elements(rs)| == |rs|
    decreases |rs|
  {
    if rs != [] {
      var init, last := rs[..|rs| - 1], rs[|rs| - 1];
      assert rs == init + [last] && last !in init;
      assert Elements(rs) == Elements(init) + {last};
      SizeWithoutDuplicates(init);
    }
  }

  lemma {:induction false} AskedSize(looked: seq<Request>)
    requires forall q <- looked :: q.ruid.Some?
    ensures |Asked(looked)| <= |looked|
    decreases |looked|
  {
    if looked != [] {
      var init, q := looked[..|looked| - 1], looked[|looked| - 1];
      assert forall p <- init :: p in looked;
      assert looked == init + [q];
      assert Asked(looked) == Asked(init) + {q.ruid.value};
      AskedSize(init);
    }
  }

  /** The list after a callback. */
  function After(rs: seq<Ruid>, response: seq<Request>): seq<Ruid> {
    var f := Find(Elements(rs), Looked(response));
    Keep(rs, f.seen) + f.added
  }

  /** Whatever fails, the list stays free of duplicates, short, and within the first four requests. */
  lemma ListStaysSmall(rs: seq<Ruid>, response: seq<Request>)
    requires NoDuplicates(rs)
    ensures NoDuplicates(After(rs, response)) && |After(rs, response)| <= 4
    ensures Elements(After(rs, response)) <= Asked(Looked(response))
  {
    var looked := Looked(response);
    var f := Find(Elements(rs), looked);
    FindingsAreOfThisResponse(Elements(rs), looked);
    KeptAreOld(rs, f.seen);
    var kept := Keep(rs, f.seen);
    assert Elements(After(rs, response)) == Elements(kept) + Elements(f.added);
    forall i, j | 0 <= i < |kept| && 0 <= j < |f.added|
      ensures kept[i] != f.added[j]
    {
      assert kept[i] in Elements(kept) && f.added[j] in Elements(f.added);
    }
    SizeWithoutDuplicates(After(rs, response));
    AskedSize(looked);
    SubsetSize(Elements(After(rs, response)), Asked(looked));
  }

  lemma {:induction false} SubsetSize<T>(a: set<T>, b: set<T>)
    requires a <= b
    ensures |a| <= |b|
    decreases |a|
  {
    if a != {} {
      var x :| x in a;
      SubsetSize(a - {x}, b - {x});
    }
  }

  /** A request for `r` has its turn before the loop ends early. */
  predicate ComesUp(known: set<Ruid>, looked: seq<Request>, r: Ruid)
    requires forall q <- looked :: q.ruid.Some?
  {
    exists i :: 0 <= i < |looked| && looked[i].ruid.value == r && TurnComes(known, looked, i)
  }

  predicate TurnComes(known: set<Ruid>, looked: seq<Request>, i: nat)
    requires i < |looked| && forall q <- looked :: q.ruid.Some?
  {
    assert forall q <- looked[..i] :: q in looked;
    !Find(known, looked[..i]).stopped
  }

  /** A listed ruid survives exactly when a request for it comes up before the loop ends early. */
  lemma {:induction false} SeenIff(known: set<Ruid>, looked: seq<Request>, r: Ruid)
    requires (forall q <- looked :: q.ruid.Some?) && r in known
    ensures r in Find(known, looked).seen
       <==> ComesUp(known, looked, r)
    decreases |looked|
  {
    if looked != [] {
      var init, q := looked[..|looked| - 1], looked[|looked| - 1];
      assert forall p <- init :: p in looked;
      assert forall i :: 0 <= i <= |init| ==> looked[..i] == init[..i];
      assert init[..|init|] == init;
      SeenIff(known, init, r);
      assert r in Find(known, looked).seen <==>
          r in Find(known, init).seen || (q.ruid.value == r && !Find(known, init).stopped);
    }
  }

  /** Request `i` is the first one online for a ruid that is not on the list. */
  predicate IsNew(known: set<Ruid>, looked: seq<Request>, i: nat)
    requires i < |looked| && forall q <- looked :: q.ruid.Some?
  {
    && looked[i].online && looked[i].ruid.value !in known
    && forall j :: 0 <= j < i && looked[j].online ==> looked[j].ruid != looked[i].ruid
  }

  /** A new request whose entry cannot be allocated, or without an alias to announce it under. */
  predicate Fails(known: set<Ruid>, looked: seq<Request>, i: nat)
    requires i < |looked| && forall q <- looked :: q.ruid.Some?
  {
    IsNew(known, looked, i) && (!looked[i].mallocOk || !looked[i].alias.Text?)
  }

  predicate NoneFails(known: set<Ruid>, looked: seq<Request>)
    requires forall q <- looked :: q.ruid.Some?
  {
    forall i :: 0 <= i < |looked| ==> !Fails(known, looked, i)
  }

  lemma NoneFailsBefore(known: set<Ruid>, looked: seq<Request>, n: nat)
    requires n <= |looked| && (forall q <- looked :: q.ruid.Some?) && NoneFails(known, looked)
    ensures (forall q <- looked[..n] :: q in looked) && NoneFails(known, looked[..n])
  {
    assert forall q <- looked[..n] :: q in looked;
    forall i | 0 <= i < n
      ensures !Fails(known, looked[..n], i)
    {
      assert !Fails(known, looked, i);
    }
  }

  function AskedOnline(looked: seq<Request>): set<Ruid>
    requires forall q <- looked :: q.ruid.Some?
  {
    set q | q in looked && q.online :: q.ruid.value
  }

  lemma AskedOnlineAt(looked: seq<Request>, r: Ruid)
    requires forall q <- looked :: q.ruid.Some?
    ensures r in AskedOnline(looked) <==> exists j :: 0 <= j < |looked| && looked[j].online && looked[j].ruid == Some(r)
  {
    if r in AskedOnline(looked) {
      var q :| q in looked && q.online && q.ruid.value == r;
      var j :| 0 <= j < |looked| && looked[j] == q;
    }
  }

  /** The notifications requests call for: one per new ruid, in order, with that request's alias. */
  function Announcements(known: set<Ruid>, looked: seq<Request>): (notes: seq<Note>)
    requires forall q <- looked :: q.ruid.Some?
  {
    if looked == [] then []
    else
      var init, q := looked[..|looked| - 1], looked[|looked| - 1];
      assert (forall p <- init :: p in looked) && q in looked;
      Announcements(known, init)
      + if IsNew(known, looked, |looked| - 1) && q.alias.Text? then [Note(q.ruid.value, q.alias.name)] else []
  }

  /** As long as no new request fails, the loop goes on, and sees all that are listed and asked again. */
  lemma {:induction false} HealthySeen(known: set<Ruid>, looked: seq<Request>)
    requires (forall q <- looked :: q.ruid.Some?) && NoneFails(known, looked)
    ensures var f := Find(known, looked);
            && !f.stopped && |f.notes| == |f.added| && f.seen * known == Asked(looked) * known
            && Elements(f.added) == AskedOnline(looked) - known
    decreases |looked|
  {
    if looked != [] {
      var init, q := looked[..|looked| - 1], looked[|looked| - 1];
      assert looked == init + [q] && q in looked;
      NoneFailsBefore(known, looked, |init|);
      var r, f := q.ruid.value, Find(known, init);
      HealthySeen(known, init);
      SeenGrows(f.seen, Asked(init), known, r);
      assert Asked(looked) == Asked(init) + {r};
      assert AskedOnline(looked) == AskedOnline(init) + if q.online then {r} else {};
      ListedOrNew(known, looked, f.added);
      assert Elements(f.added + [r]) == Elements(f.added) + {r};
      assert !Fails(known, looked, |init|);
    }
  }

  lemma SeenGrows(seen: set<Ruid>, asked: set<Ruid>, known: set<Ruid>, r: Ruid)
    requires seen * known == asked * known
    ensures (seen + {r}) * known == (asked + {r}) * known
    ensures r !in known ==> seen * known == (asked + {r}) * known
  {
    assert (seen + {r}) * known == seen * known + {r} * known;
    assert (asked + {r}) * known == asked * known + {r} * known;
  }

  /** The last request is new exactly when it is online and neither listed nor added before. */
  lemma ListedOrNew(known: set<Ruid>, looked: seq<Request>, added: seq<Ruid>)
    requires looked != [] && forall q <- looked :: q.ruid.Some?
    requires forall q <- looked[..|looked| - 1] :: q in looked
    requires Elements(added) == AskedOnline(looked[..|looked| - 1]) - known
    ensures var q := looked[|looked| - 1];
            IsNew(known, looked, |looked| - 1) <==> q.online && q.ruid.value !in known && q.ruid.value !in added
  {
    var r := looked[|looked| - 1].ruid.value;
    assert r in added <==> r in Elements(added);
    AskedOnlineAt(looked[..|looked| - 1], r);
  }

  lemma {:induction false} HealthyNotes(known: set<Ruid>, looked: seq<Request>)
    requires (forall q <- looked :: q.ruid.Some?) && NoneFails(known, looked)
    ensures Find(known, looked).notes == Announcements(known, looked)
    decreases |looked|
  {
    if looked != [] {
      var init := looked[..|looked| - 1];
      assert looked[|looked| - 1] in looked;
      NoneFailsBefore(known, looked, |init|);
      HealthyNotes(known, init);
      HealthySeen(known, init);
      ListedOrNew(known, looked, Find(known, init).added);
      assert !Fails(known, looked, |init|);
    }
  }

  /** What is kept depends only on which listed ones were seen. */
  lemma {:induction false} KeepListed(rs: seq<Ruid>, seen: set<Ruid>, asked: set<Ruid>)
    requires seen * Elements(rs) == asked * Elements(rs)
    ensures Keep(rs, seen) == Keep(rs, asked)
    decreases |rs|
  {
    if rs != [] {
      var init, last := rs[..|rs| - 1], rs[|rs| - 1];
      assert Elements(rs) == Elements(init) + {last} by { assert rs == init + [last]; }
      assert seen * Elements(init) == (seen * Elements(rs)) * Elements(init);
      assert asked * Elements(init) == (asked * Elements(rs)) * Elements(init);
      KeepListed(init, seen, asked);
      assert last in seen <==> last in seen * Elements(rs);
    }
  }

  function NoteRuids(notes: seq<Note>): seq<Ruid> {
    seq(|notes|, i requires 0 <= i < |notes| => notes[i].ruid)
  }

  /**
   * Exactly what a callback does, failures included. When request `k` is the
   * first to fail (or there is none), the list becomes the old ones asked for
   * again before it, in their old order, followed by the new ones in the order
   * of the response, and by the one that has no alias. Each new one before it
   * is announced, with the alias it first came up with online.
   */
  lemma CallbackExactly(rs: seq<Ruid>, response: seq<Request>, k: nat)
    requires k <= |Looked(response)| && forall q <- Looked(response)[..k] :: q.ruid.Some?
    requires NoneFails(Elements(rs), Looked(response)[..k])
    requires k < |Looked(response)| ==> Fails(Elements(rs), Looked(response), k)
    ensures var looked := Looked(response);
            var notes := Announcements(Elements(rs), looked[..k]);
            var silent := if k < |looked| && looked[k].mallocOk then [looked[k].ruid.value] else [];
            && Find(Elements(rs), looked).notes == notes
            && After(rs, response) == Keep(rs, Asked(looked[..k])) + (NoteRuids(notes) + silent)
            && Elements(NoteRuids(notes)) == AskedOnline(looked[..k]) - Elements(rs)
  {
    var known, looked := Elements(rs), Looked(response);
    var f, g := Find(known, looked), Find(known, looked[..k]);
    HealthySeen(known, looked[..k]);
    HealthyNotes(known, looked[..k]);
    FindingsAreOfThisResponse(known, looked[..k]);
    assert g.added == NoteRuids(g.notes);
    KeepListed(rs, g.seen, Asked(looked[..k]));
    if k < |looked| {
      FailureStops(known, looked, k);
    } else {
      assert looked[..k] == looked;
    }
  }

  /** A new request that fails ends the loop; without an alias it is listed all the same. */
  lemma FailureStops(known: set<Ruid>, looked: seq<Request>, k: nat)
    requires k < |looked| && (forall q <- looked :: q.ruid.Some?) && Fails(known, looked, k)
    requires (forall q <- looked[..k] :: q.ruid.Some?) && NoneFails(known, looked[..k])
    ensures var f, g := Find(known, looked), Find(known, looked[..k]);
            && f.seen == g.seen && f.notes == g.notes
            && f.added == g.added + if looked[k].mallocOk then [looked[k].ruid.value] else []
  {
    var upTo := looked[..k + 1];
    assert upTo[..|upTo| - 1] == looked[..k];
    HealthySeen(known, looked[..k]);
    assert (forall q <- upTo :: q in looked) && forall q <- upTo[..|upTo| - 1] :: q in upTo;
    ListedOrNew(known, upTo, Find(known, looked[..k]).added);
    assert IsNew(known, looked, k) && IsNew(known, upTo, k);
    FindNext(known, looked, k);
    StoppedEarly(known, looked, k + 1);
  }

  /** There always is such a `k`. */
  lemma FirstToFail(known: set<Ruid>, looked: seq<Request>) returns (k: nat)
    requires forall q <- looked :: q.ruid.Some?
    ensures k <= |looked| && forall q <- looked[..k] :: q.ruid.Some?
    ensures NoneFails(known, looked[..k])
    ensures k < |looked| ==> Fails(known, looked, k)
  {
    k := 0;
    while k < |looked| && !Fails(known, looked, k)
      invariant 0 <= k <= |looked|
      invariant forall i :: 0 <= i < k ==> !Fails(known, looked, i)
    {
      k := k + 1;
    }
    assert forall q <- looked[..k] :: q in looked;
    forall i | 0 <= i < k
      ensures !Fails(known, looked[..k], i)
    {
      assert !Fails(known, looked, i);
    }
  }

  /** No allocation fails and every alias is a string. */
  predicate Healthy(looked: seq<Request>) {
    forall q <- looked :: q.ruid.Some? && q.mallocOk && q.alias.Text?
  }

  /** Without failures every request is gone through. */
  lemma HealthyCallback(rs: seq<Ruid>, response: seq<Request>)
    requires Healthy(Looked(response))
    ensures var looked := Looked(response);
            var notes := Announcements(Elements(rs), looked);
            && Find(Elements(rs), looked).notes == notes
            && After(rs, response) == Keep(rs, Asked(looked)) + NoteRuids(notes)
            && Elements(NoteRuids(notes)) == AskedOnline(looked) - Elements(rs)
  {
    var looked := Looked(response);
    assert looked[..|looked|] == looked;
    CallbackExactly(rs, response, |looked|);
  }

  // ---- consecutive responses ----

  function NotesFor(notes: seq<Note>, r: Ruid): nat {
    if notes == [] then 0
    else NotesFor(notes[..|notes| - 1], r) + if notes[|notes| - 1].ruid == r then 1 else 0
  }

  /** How often `r` is announced over a series of responses. */
  function TimesNotified(rs: seq<Ruid>, responses: seq<seq<Request>>, r: Ruid): nat
    decreases |responses|
  {
    if responses == [] then 0
    else
      NotesFor(Find(Elements(rs), Looked(responses[0])).notes, r)
      + TimesNotified(After(rs, responses[0]), responses[1..], r)
  }

  lemma {:induction false} NotesForFindings(notes: seq<Note>, added: seq<Ruid>, r: Ruid)
    requires |notes| <= |added| && NoDuplicates(added)
    requires forall i :: 0 <= i < |notes| ==> notes[i].ruid == added[i]
    ensures NotesFor(notes, r) <= 1
    ensures NotesFor(notes, r) == 1 <==> exists i :: 0 <= i < |notes| && added[i] == r
    decreases |notes|
  {
    if notes != [] {
      NotesForFindings(notes[..|notes| - 1], added, r);
    }
  }

  ghost predicate ComesUpInEach(rs: seq<Ruid>, responses: seq<seq<Request>>, r: Ruid)
    decreases |responses|
  {
    responses != [] ==>
      && ComesUp(Elements(rs), Looked(responses[0]), r)
      && ComesUpInEach(After(rs, responses[0]), responses[1..], r)
  }

  /**
   * A ruid that comes up in consecutive responses is announced at most once,
   * and not at all if it is already listed; allocations may fail and aliases be
   * missing.
   */
  lemma {:induction false} NotifiedAtMostOnce(rs: seq<Ruid>, responses: seq<seq<Request>>, r: Ruid)
    requires NoDuplicates(rs) && ComesUpInEach(rs, responses, r)
    ensures TimesNotified(rs, responses, r) <= if r in rs then 0 else 1
    decreases |responses|
  {
    if responses != [] {
      var looked := Looked(responses[0]);
      var f := Find(Elements(rs), looked);
      ListStaysSmall(rs, responses[0]);
      FindingsAreOfThisResponse(Elements(rs), looked);
      NotesForFindings(f.notes, f.added, r);
      NotifiedAtMostOnce(After(rs, responses[0]), responses[1..], r);
      if NotesFor(f.notes, r) == 1 {
        assert r in Elements(f.added);
      }
      if r in rs {
        SeenIff(Elements(rs), looked, r);
        KeptAreOld(rs, f.seen);
        assert r in Elements(Keep(rs, f.seen));
      }
    }
  }

  /** When nothing fails, being in the responses is enough. */
  lemma {:induction false} HealthyComesUp(rs: seq<Ruid>, responses: seq<seq<Request>>, r: Ruid)
    requires forall p <- responses :: Healthy(Looked(p)) && r in Asked(Looked(p))
    ensures ComesUpInEach(rs, responses, r)
    decreases |responses|
  {
    if responses != [] {
      var looked := Looked(responses[0]);
      assert responses[0] in responses;
      var q :| q in looked && q.ruid.value == r;
      var i :| 0 <= i < |looked| && looked[i] == q;
      NoneFailsBefore(Elements(rs), looked, i);
      HealthySeen(Elements(rs), looked[..i]);
      assert TurnComes(Elements(rs), looked, i);
      HealthyComesUp(After(rs, responses[0]), responses[1..], r);
    }
  }

  /**
   * A listed ruid that is asked for again but does not come up is dropped: a
   * failed allocation before its turn has it announced a second time.
   */
  lemma AnnouncedAgainAfterFailure(a: Ruid, r: Ruid)
    requires a != r
    ensures var failing := [Request(Some(a), Text("a"), true, false), Request(Some(r), Text("r"), true, true)];
            var fine := [Request(Some(r), Text("r"), true, true)];
            TimesNotified([r], [failing, fine], r) == 1
  {
    var failing := [Request(Some(a), Text("a"), true, false), Request(Some(r), Text("r"), true, true)];
    var fine := [Request(Some(r), Text("r"), true, true)];
    DroppedAfterFailure(a, r);
    AnnouncedWhenUnlisted(r);
    var none: seq<seq<Request>> := [];
    assert [fine][1..] == none && [failing, fine][1..] == [fine];
    assert TimesNotified([], [fine], r) == 1 + TimesNotified(After([], fine), none, r);
  }

  lemma DroppedAfterFailure(a: Ruid, r: Ruid)
    requires a != r
    ensures var failing := [Request(Some(a), Text("a"), true, false), Request(Some(r), Text("r"), true, true)];
            After([r], failing) == [] && Find(Elements([r]), Looked(failing)).notes == []
  {
    var failing := [Request(Some(a), Text("a"), true, false), Request(Some(r), Text("r"), true, true)];
    assert LookedFrom(failing, 2) == failing && LookedFrom(failing, 1) == failing && Looked(failing) == failing;
    var nothing := Findings({}, [], [], true);
    assert Find({r}, failing[..1]) == nothing by { assert failing[..1][..0] == []; }
    assert Find({r}, failing) == nothing;
    assert Elements([r]) == {r};
    var none: seq<Ruid> := [];
    assert Keep([r], {}) == none by { assert [r][..0] == none && Keep(none, {}) == none; }
  }

  lemma AnnouncedWhenUnlisted(r: Ruid)
    ensures var fine := [Request(Some(r), Text("r"), true, true)];
            NotesFor(Find(Elements([]), Looked(fine)).notes, r) == 1
  {
    var fine := [Request(Some(r), Text("r"), true, true)];
    assert LookedFrom(fine, 1) == fine && Looked(fine) == fine;
    var none: seq<Ruid> := [];
    assert Elements(none) == {};
    assert Find({}, fine) == Findings({}, [r], [Note(r, "r")], false) by { assert fine[..0] == []; }
    assert NotesFor([Note(r, "r")], r) == 1;
  }
}
