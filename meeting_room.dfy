/** A meeting-room scheduler. Rooms wait in a first-in first-out queue of
  * available rooms; a reservation takes the head of that queue and parks the
  * room in a priority queue of busy slots ordered by end time. Before each
  * reservation every busy slot that has ended by the new start is returned to
  * the available queue. A log keeps the newest reservations, at most
  * `MAX_LOG_SIZE` of them. */
module MeetingRoom {
  import opened Wrappers

  const MAX_LOG_SIZE: int := 5
  const RETENTION_PERIOD: int := 2

  /** A busy room and the time its meeting ends. */
  datatype RoomSlot = RoomSlot(end: int, room: string)

  /** A reservation; `id` stands for the random UUID it is given. */
  datatype Reservation = Reservation(id: int, room: string, start: int, end: int)

  /** The busy priority queue, listed in the order it is polled. */
  ghost predicate SortedByEnd(q: seq<RoomSlot>) {
    forall i, j :: 0 <= i < j < |q| ==> q[i].end <= q[j].end
  }

  /** Offering a slot to the busy queue: it goes after every slot ending no
    * later than it. */
  function Offer(q: seq<RoomSlot>, s: RoomSlot): (r: seq<RoomSlot>)
    ensures multiset(r) == multiset(q) + multiset{s}
    ensures |r| == |q| + 1
  {
    if |q| == 0 || s.end < q[0].end then [s] + q
    else
      assert q == [q[0]] + q[1..];
      [q[0]] + Offer(q[1..], s)
  }

  lemma {:induction false} OfferSorted(q: seq<RoomSlot>, s: RoomSlot)
    requires SortedByEnd(q)
    ensures SortedByEnd(Offer(q, s))
    decreases |q|
  {
    if |q| > 0 && q[0].end <= s.end {
      var rest := Offer(q[1..], s);
      OfferSorted(q[1..], s);
      forall j | 0 <= j < |rest|
        ensures q[0].end <= rest[j].end
      {
        assert rest[j] in multiset(rest);
        if rest[j] != s {
          assert rest[j] in multiset(q[1..]);
          var i :| 0 <= i < |q[1..]| && q[1..][i] == rest[j];
          assert q[i + 1] == rest[j];
        }
      }
    }
  }

  /** The rooms of the slots, in queue order. */
  function Rooms(q: seq<RoomSlot>): (r: seq<string>)
    ensures |r| == |q|
    ensures forall i :: 0 <= i < |q| ==> r[i] == q[i].room
  {
    seq(|q|, i requires 0 <= i < |q| => q[i].room)
  }

  /** How many slots at the head of the queue end at or before t. */
  function DueBy(q: seq<RoomSlot>, t: int): (k: nat)
    ensures k <= |q|
    ensures forall i :: 0 <= i < k ==> q[i].end <= t
    ensures k < |q| ==> q[k].end > t
  {
    if |q| == 0 || q[0].end > t then 0
    else 1 + DueBy(q[1..], t)
  }

  /** The head count is the only one with those two properties. */
  lemma DueByUnique(q: seq<RoomSlot>, t: int, k: nat)
    requires k <= |q|
    requires forall i :: 0 <= i < k ==> q[i].end <= t
    requires k < |q| ==> q[k].end > t
    ensures k == DueBy(q, t)
  {
  }

  /** In a sorted queue the head slots due by t are exactly the slots that
    * end at or before t. */
  lemma DueByExactly(q: seq<RoomSlot>, t: int)
    requires SortedByEnd(q)
    ensures forall i :: 0 <= i < |q| ==> (i < DueBy(q, t) <==> q[i].end <= t)
  {
    var k := DueBy(q, t);
    forall i | 0 <= i < |q| && k <= i
      ensures q[i].end > t
    {
      assert q[k].end <= q[i].end;
    }
  }

  /** A sorted queue stays sorted when its head is dropped. */
  lemma DropSorted(q: seq<RoomSlot>, k: nat)
    requires SortedByEnd(q) && k <= |q|
    ensures SortedByEnd(q[k..])
  {
  }

  /** The rooms of a queue split like the queue. */
  lemma RoomsSplit(q: seq<RoomSlot>, k: nat)
    requires k <= |q|
    ensures Rooms(q) == Rooms(q[..k]) + Rooms(q[k..])
  {
  }

  /** How many reservations at the head of the log ended before the cutoff. */
  function Stale(log: seq<Reservation>, cutoff: int): (k: nat)
    ensures k <= |log|
    ensures forall i :: 0 <= i < k ==> log[i].end < cutoff
    ensures k < |log| ==> log[k].end >= cutoff
  {
    if |log| == 0 || log[0].end >= cutoff then 0
    else 1 + Stale(log[1..], cutoff)
  }

  lemma StaleUnique(log: seq<Reservation>, cutoff: int, k: nat)
    requires k <= |log|
    requires forall i :: 0 <= i < k ==> log[i].end < cutoff
    requires k < |log| ==> log[k].end >= cutoff
    ensures k == Stale(log, cutoff)
  {
  }

  /** The last min(n, |s|) elements of s. */
  function Newest<T>(s: seq<T>, n: nat): (r: seq<T>)
    ensures |r| == if n < |s| then n else |s|
    ensures forall i :: 0 <= i < |r| ==> r[i] == s[|s| - |r| + i]
  {
    if n < |s| then s[|s| - n..] else s
  }

  /** a is the tail end of b. */
  ghost predicate IsSuffix<T>(a: seq<T>, b: seq<T>) {
    |a| <= |b| && forall i :: 0 <= i < |a| ==> a[i] == b[|b| - |a| + i]
  }

  /** No room was given to the scheduler twice. */
  ghost predicate NoRepeats(rooms: multiset<string>) {
    forall x :: rooms[x] <= 1
  }

  class MeetingScheduler {
    var busy: seq<RoomSlot>
    var availableRooms: seq<string>
    var lastNScheduled: seq<Reservation>
    /** the rooms given to the constructor */
    ghost var rooms: multiset<string>
    /** the rooms whose busy slots `CleanUpBusyRooms` discarded */
    ghost var dropped: multiset<string>
    /** every reservation made, oldest first */
    ghost var history: seq<Reservation>

    /** Every room given to the scheduler is available, busy or dropped, the
      * busy queue is polled in order of end time, and the log holds at most
      * `MAX_LOG_SIZE` of the newest reservations. */
    ghost predicate Valid()
      reads this
    {
      Scheduled(busy, availableRooms, lastNScheduled, dropped, rooms, history)
    }

    constructor (available: seq<string>)
      ensures Valid()
      ensures availableRooms == available && busy == [] && lastNScheduled == []
      ensures rooms == multiset(available) && dropped == multiset{} && history == []
    {
      availableRooms := available;
      busy := [];
      lastNScheduled := [];
      rooms := multiset(available);
      dropped := multiset{};
      history := [];
    }

    /** Returns every room whose meeting ended by `start`, then takes the
      * head of the available rooms until `end`; with no room available the
      * reservation is refused and nothing changes. */
    method ReserveRoom(start: int, end: int, id: int) returns (r: Result<Reservation>)
      requires Valid()
      modifies this
      ensures Valid()
      ensures rooms == old(rooms) && dropped == old(dropped)
      ensures var o := Reserved(old(busy), old(availableRooms), start, end);
        busy == o.busy && availableRooms == o.available
        && (r.Err? <==> o.room.None?)
        && (r.Err? ==> r.error == IllegalStateException)
        && (r.Ok? ==> r.value == Reservation(id, o.room.value, start, end))
      ensures r.Err? ==> (lastNScheduled == old(lastNScheduled) && history == old(history))
      ensures r.Ok? ==> (history == old(history) + [r.value]
        && lastNScheduled == Newest(old(lastNScheduled) + [r.value], MAX_LOG_SIZE))
    {
      var room, busy', avail' := Reserve(busy, availableRooms, start, end);
      if room.None? {
        ReserveScheduled(busy, availableRooms, lastNScheduled, dropped, rooms, history, start, end, id);
        return Err(IllegalStateException);
      }
      var res := Reservation(id, room.value, start, end);
      ReserveScheduled(busy, availableRooms, lastNScheduled, dropped, rooms, history, start, end, id);
      busy, availableRooms, lastNScheduled, history := busy', avail', Log(lastNScheduled, res), history + [res];
      r := Ok(res);
    }

    /** Busy slots ending before `currentTime` are polled and discarded;
      * their rooms are not made available again. */
    method CleanUpBusyRooms(currentTime: int)
      requires Valid()
      modifies this
      ensures Valid()
      ensures var k := DueBy(old(busy), currentTime - 1);
        busy == old(busy)[k..]
        && dropped == old(dropped) + multiset(Rooms(old(busy)[..k]))
      ensures forall i :: 0 <= i < |busy| ==> busy[i].end >= currentTime
      ensures availableRooms == old(availableRooms) && rooms == old(rooms)
      ensures lastNScheduled == old(lastNScheduled) && history == old(history)
    {
      var rest, polled := PollDue(busy, currentTime - 1);
      CleanUpScheduled(busy, availableRooms, lastNScheduled, dropped, rooms, history, currentTime);
      busy, dropped := rest, dropped + multiset(polled);
    }

    /** Drops reservations from the oldest end of the log while the oldest
      * one ended before `currentTime - RETENTION_PERIOD`. */
    method PurgeLogQueue(currentTime: int)
      requires Valid()
      modifies this
      ensures Valid()
      ensures lastNScheduled == old(lastNScheduled)[Stale(old(lastNScheduled), currentTime - RETENTION_PERIOD)..]
      ensures busy == old(busy) && availableRooms == old(availableRooms)
      ensures rooms == old(rooms) && dropped == old(dropped) && history == old(history)
    {
      var rest := DropStale(lastNScheduled, currentTime - RETENTION_PERIOD);
      SuffixDrop(lastNScheduled, history, Stale(lastNScheduled, currentTime - RETENTION_PERIOD));
      lastNScheduled := rest;
    }

    /** Walks the log from its newest end, taking at most n reservations. */
    method LastNMeeting(n: int) returns (ans: seq<Reservation>)
      requires Valid()
      ensures ans == NewestFirst(lastNScheduled, n)
    {
      var count := 0;
      ans := [];
      while count < |lastNScheduled| && count < n
        invariant 0 <= count <= |lastNScheduled|
        invariant |ans| == count
        invariant if n <= 0 then count == 0 else count <= n
        invariant forall i :: 0 <= i < count ==> ans[i] == lastNScheduled[|lastNScheduled| - 1 - i]
      {
        ans := ans + [lastNScheduled[|lastNScheduled| - 1 - count]];
        count := count + 1;
      }
    }
  }

  /** The newest min(n, |s|) elements of s, newest first (none when n is not
    * positive). */
  function NewestFirst<T>(s: seq<T>, n: int): seq<T> {
    var k := if n <= 0 then 0 else if n < |s| then n else |s|;
    seq(k, i requires 0 <= i < k => s[|s| - 1 - i])
  }

  /** `lastNMeeting` returns min(n, log size) reservations, the i-th of them
    * the i-th newest in the log. */
  lemma NewestFirstSpec<T>(s: seq<T>, n: int)
    ensures |NewestFirst(s, n)| == if n <= 0 then 0 else if n < |s| then n else |s|
    ensures forall i :: 0 <= i < |NewestFirst(s, n)| ==> NewestFirst(s, n)[i] == s[|s| - 1 - i]
  {
  }

  /** As the log is the tail of every reservation made, what `lastNMeeting`
    * returns begins the list of all reservations, newest first. */
  lemma NewestFirstHistory<T>(log: seq<T>, history: seq<T>, n: int)
    requires IsSuffix(log, history)
    ensures var r := NewestFirst(log, n);
      |r| <= |NewestFirst(history, n)| && r == NewestFirst(history, n)[..|r|]
  {
    var r, h := NewestFirst(log, n), NewestFirst(history, n);
    forall i | 0 <= i < |r|
      ensures r[i] == h[i]
    {
      assert log[|log| - 1 - i] == history[|history| - |log|..][|log| - 1 - i];
    }
  }

  /** Polls the busy queue while its head has ended by t; returns what is
    * left and the rooms polled, in polling order. */
  method PollDue(q: seq<RoomSlot>, t: int) returns (rest: seq<RoomSlot>, polled: seq<string>)
    ensures var k := DueBy(q, t); rest == q[k..] && polled == Rooms(q[..k])
  {
    var k := 0;
    rest, polled := q, [];
    while rest != [] && t >= rest[0].end
      invariant 0 <= k <= |q|
      invariant rest == q[k..]
      invariant polled == Rooms(q[..k])
      invariant forall i :: 0 <= i < k ==> q[i].end <= t
      decreases |rest|
    {
      assert Rooms(q[..k + 1]) == Rooms(q[..k]) + [rest[0].room];
      polled := polled + [rest[0].room];
      rest := rest[1..];
      k := k + 1;
    }
    DueByUnique(q, t, k);
  }

  /** Moving the polled rooms to the available queue keeps every room
    * accounted for. */
  lemma Released(avail: seq<string>, q: seq<RoomSlot>, k: nat, dropped: multiset<string>, rooms: multiset<string>)
    requires k <= |q|
    requires Accounted(avail, q, dropped, rooms)
    ensures multiset(avail + Rooms(q[..k])) + multiset(Rooms(q[k..])) + dropped == rooms
    ensures k == 0 ==> avail + Rooms(q[..k]) == avail && q[k..] == q
  {
    RoomsSplit(q, k);
  }

  /** Discarding the polled rooms keeps every room accounted for. */
  lemma Discarded(avail: seq<string>, q: seq<RoomSlot>, k: nat, dropped: multiset<string>, rooms: multiset<string>)
    requires k <= |q|
    requires Accounted(avail, q, dropped, rooms)
    ensures multiset(avail) + multiset(Rooms(q[k..])) + (dropped + multiset(Rooms(q[..k]))) == rooms
  {
    RoomsSplit(q, k);
  }

  /** What a reservation leaves: the room handed out, if any, the busy
    * queue and the available rooms. */
  datatype Outcome = Outcome(room: Option<string>, busy: seq<RoomSlot>, available: seq<string>)

  /** A reservation from `start` to `end`: the slots due by `start` give
    * their rooms back in polling order, then the head of the available
    * rooms is taken until `end`; when no room is available nothing
    * changes. */
  function Reserved(busy: seq<RoomSlot>, avail: seq<string>, start: int, end: int): Outcome {
    var k := DueBy(busy, start);
    var free := avail + Rooms(busy[..k]);
    if free == [] then Outcome(None, busy, avail)
    else Outcome(Some(free[0]), Offer(busy[k..], RoomSlot(end, free[0])), free[1..])
  }

  /** The loops of a reservation compute `Reserved`. */
  method Reserve(busy: seq<RoomSlot>, avail: seq<string>, start: int, end: int)
    returns (room: Option<string>, busy': seq<RoomSlot>, avail': seq<string>)
    ensures Outcome(room, busy', avail') == Reserved(busy, avail, start, end)
  {
    var rest, polled := PollDue(busy, start);
    busy', avail' := rest, avail + polled;
    if avail' == [] {
      assert busy == [] || busy[0].end > start;
      return None, busy', avail';
    }
    room := Some(avail'[0]);
    avail' := avail'[1..];
    busy' := Offer(busy', RoomSlot(end, room.value));
  }

  /** Every room is available, busy or dropped. */
  ghost predicate Accounted(avail: seq<string>, busy: seq<RoomSlot>, dropped: multiset<string>, rooms: multiset<string>) {
    multiset(avail) + multiset(Rooms(busy)) + dropped == rooms
  }

  /** A reservation is refused exactly when no room is available and none
    * is due back by its start; it keeps the busy queue sorted, every room
    * accounted for and the number of rooms held unchanged, and it hands
    * out a room held by no meeting still running at its start. */
  lemma ReserveKeeps(busy: seq<RoomSlot>, avail: seq<string>, dropped: multiset<string>, rooms: multiset<string>,
                     start: int, end: int)
    requires SortedByEnd(busy) && Accounted(avail, busy, dropped, rooms)
    ensures var o := Reserved(busy, avail, start, end);
      (o.room.None? <==> avail == [] && forall i :: 0 <= i < |busy| ==> busy[i].end > start)
      && SortedByEnd(o.busy) && Accounted(o.available, o.busy, dropped, rooms)
      && |o.available| + |o.busy| == |avail| + |busy|
      && (o.room.Some? && NoRepeats(rooms) ==>
            forall i :: 0 <= i < |busy| && busy[i].end > start ==> busy[i].room != o.room.value)
  {
    var k := DueBy(busy, start);
    var free := avail + Rooms(busy[..k]);
    Released(avail, busy, k, dropped, rooms);
    DueByExactly(busy, start);
    if free != [] {
      DropSorted(busy, k);
      OfferSorted(busy[k..], RoomSlot(end, free[0]));
      Handout(free, busy[k..], busy, k, end, dropped, rooms);
    }
  }

  /** The scheduler's invariant on its values: the busy queue is polled in
    * order of end time, every room is available, busy or dropped, and the
    * log holds at most `MAX_LOG_SIZE` of the newest reservations. */
  ghost predicate Scheduled(busy: seq<RoomSlot>, avail: seq<string>, log: seq<Reservation>,
                            dropped: multiset<string>, rooms: multiset<string>, history: seq<Reservation>) {
    SortedByEnd(busy)
    && Accounted(avail, busy, dropped, rooms)
    && |log| <= MAX_LOG_SIZE
    && IsSuffix(log, history)
  }

  /** A reservation keeps the invariant, and a refused one changes nothing. */
  lemma ReserveScheduled(busy: seq<RoomSlot>, avail: seq<string>, log: seq<Reservation>,
                         dropped: multiset<string>, rooms: multiset<string>, history: seq<Reservation>,
                         start: int, end: int, id: int)
    requires Scheduled(busy, avail, log, dropped, rooms, history)
    ensures var o := Reserved(busy, avail, start, end);
      o.room.None? ==> o.busy == busy && o.available == avail
    ensures var o := Reserved(busy, avail, start, end);
      o.room.Some? ==>
        var res := Reservation(id, o.room.value, start, end);
        Scheduled(o.busy, o.available, Log(log, res), dropped, rooms, history + [res])
  {
    ReserveKeeps(busy, avail, dropped, rooms, start, end);
    var o := Reserved(busy, avail, start, end);
    if o.room.Some? {
      var res := Reservation(id, o.room.value, start, end);
      var h := history + [res];
      assert log + [res] == h[|h| - |log| - 1..];
    }
  }

  /** Discarding the slots that end before t keeps the invariant; they are
    * exactly the slots at the head of the busy queue that a poll while the
    * head ends before t removes. */
  lemma CleanUpScheduled(busy: seq<RoomSlot>, avail: seq<string>, log: seq<Reservation>,
                         dropped: multiset<string>, rooms: multiset<string>, history: seq<Reservation>, t: int)
    requires Scheduled(busy, avail, log, dropped, rooms, history)
    ensures var k := DueBy(busy, t - 1);
      Scheduled(busy[k..], avail, log, dropped + multiset(Rooms(busy[..k])), rooms, history)
    ensures forall i :: 0 <= i < |busy| ==> (i < DueBy(busy, t - 1) <==> busy[i].end < t)
    ensures var rest := busy[DueBy(busy, t - 1)..];
      forall i :: 0 <= i < |rest| ==> rest[i].end >= t
  {
    var k := DueBy(busy, t - 1);
    Discarded(avail, busy, k, dropped, rooms);
    DueByExactly(busy, t - 1);
    DropSorted(busy, k);
    forall i | 0 <= i < |busy| - k
      ensures busy[k..][i].end >= t
    {
      assert busy[k..][i] == busy[k + i];
    }
  }

  /** The log after a new reservation: appended, then trimmed from the
    * oldest end once it holds more than `MAX_LOG_SIZE`. */
  function Log(log: seq<Reservation>, res: Reservation): (r: seq<Reservation>)
    requires |log| <= MAX_LOG_SIZE
    ensures r == Newest(log + [res], MAX_LOG_SIZE)
  {
    var l := log + [res];
    if |l| > MAX_LOG_SIZE then l[1..] else l
  }

  /** Pops reservations from the oldest end of the log while the oldest
    * one ended before the cutoff. */
  method DropStale(log: seq<Reservation>, cutoff: int) returns (rest: seq<Reservation>)
    ensures rest == log[Stale(log, cutoff)..]
  {
    rest := log;
    ghost var k := 0;
    while rest != []
      invariant 0 <= k <= |log|
      invariant rest == log[k..]
      invariant forall i :: 0 <= i < k ==> log[i].end < cutoff
      decreases |rest|
    {
      var res := rest[0];
      if res.end < cutoff {
        rest := rest[1..];
        k := k + 1;
      } else {
        break;
      }
    }
    StaleUnique(log, cutoff, k);
  }

  /** Dropping the head of a suffix leaves a suffix. */
  lemma SuffixDrop<T>(a: seq<T>, b: seq<T>, k: nat)
    requires IsSuffix(a, b) && k <= |a|
    ensures IsSuffix(a[k..], b)
  {
    assert a[k..] == b[|b| - |a| + k..];
  }

  /** A room added to the busy queue adds one to its room count. */
  lemma {:induction false} OfferRooms(q: seq<RoomSlot>, s: RoomSlot)
    ensures multiset(Rooms(Offer(q, s))) == multiset(Rooms(q)) + multiset{s.room}
    decreases |q|
  {
    if |q| == 0 || s.end < q[0].end {
      assert Rooms([s] + q) == [s.room] + Rooms(q);
    } else {
      OfferRooms(q[1..], s);
      assert Rooms([q[0]] + Offer(q[1..], s)) == [q[0].room] + Rooms(Offer(q[1..], s));
      assert Rooms(q) == [q[0].room] + Rooms(q[1..]);
    }
  }

  /** Taking the head of the free rooms into a new busy slot leaves every
    * room accounted for and, when no room was given twice, the head is held
    * by no slot left busy. */
  lemma Handout(free: seq<string>, rest: seq<RoomSlot>, q0: seq<RoomSlot>, k: nat, end: int,
                dropped: multiset<string>, rooms: multiset<string>)
    requires free != [] && k <= |q0| && rest == q0[k..]
    requires multiset(free) + multiset(Rooms(rest)) + dropped == rooms
    ensures multiset(free[1..]) + multiset(Rooms(Offer(rest, RoomSlot(end, free[0])))) + dropped == rooms
    ensures NoRepeats(rooms) ==> forall i :: k <= i < |q0| ==> q0[i].room != free[0]
  {
    assert free == [free[0]] + free[1..];
    OfferRooms(rest, RoomSlot(end, free[0]));
    assert multiset(free)[free[0]] >= 1;
    if NoRepeats(rooms) {
      forall i | k <= i < |q0|
        ensures q0[i].room != free[0]
      {
        assert Rooms(rest)[i - k] == q0[i].room;
        assert multiset(Rooms(rest))[q0[i].room] >= 1;
        assert rooms[q0[i].room] <= 1;
      }
    }
  }

  /** Three reservations, 1-3, 2-4 and 3-5, enter the log in turn; the two
    * newest are those of 3-5 and 2-4, and purging at 4 (6 less the
    * retention period) drops only the first, which ended at 3. */
  lemma DemoLog(r1: Reservation, r2: Reservation, r3: Reservation)
    requires r1 == Reservation(1, "A", 1, 3) && r2 == Reservation(2, "B", 2, 4) && r3 == Reservation(3, "C", 3, 5)
    ensures Log([], r1) == [r1] && Log([r1], r2) == [r1, r2] && Log([r1, r2], r3) == [r1, r2, r3]
    ensures NewestFirst([r1, r2, r3], 2) == [r3, r2]
    ensures Stale([r1, r2, r3], 4) == 1
  {
    assert [r1, r2, r3][1..] == [r2, r3];
  }

  /** Two rooms, A and B: meeting 1-3 takes A. */
  lemma DemoFirst()
    ensures Reserved([], ["A", "B"], 1, 3) == Outcome(Some("A"), [RoomSlot(3, "A")], ["B"])
  {
  }

  /** Then 2-4 takes B, as A is busy until 3. */
  lemma DemoSecond()
    ensures Reserved([RoomSlot(3, "A")], ["B"], 2, 4)
      == Outcome(Some("B"), [RoomSlot(3, "A"), RoomSlot(4, "B")], [])
  {
  }

  /** Then 3-5 takes A back, as its meeting ended at 3, and B stays busy. */
  lemma DemoThird()
    ensures Reserved([RoomSlot(3, "A"), RoomSlot(4, "B")], [], 3, 5)
      == Outcome(Some("A"), [RoomSlot(4, "B"), RoomSlot(5, "A")], [])
  {
    var q2 := [RoomSlot(3, "A"), RoomSlot(4, "B")];
    assert DueBy(q2, 3) == 1 by {
      assert q2[1..] == [RoomSlot(4, "B")];
    }
    assert Rooms(q2[..1]) == ["A"];
    assert q2[1..] == [RoomSlot(4, "B")];
  }

  /** One room: after 1-3 takes it, 2-4 is refused. */
  method RefusedExample() returns (r1: Result<Reservation>, r2: Result<Reservation>)
    ensures r1 == Ok(Reservation(1, "A", 1, 3)) && r2 == Err(IllegalStateException)
  {
    assert Reserved([], ["A"], 1, 3) == Outcome(Some("A"), [RoomSlot(3, "A")], []);
    assert Reserved([RoomSlot(3, "A")], [], 2, 4).room == None;
    var m := new MeetingScheduler(["A"]);
    r1 := m.ReserveRoom(1, 3, 1);
    r2 := m.ReserveRoom(2, 4, 2);
  }

  /** Rooms whose slots were cleaned up are gone: after 1-3 takes the only
    * room, cleaning up at 5 discards its slot, and a meeting at 7 is refused
    * although no meeting is running. */
  method CleanUpExample() returns (r: Result<Reservation>)
    ensures r == Err(IllegalStateException)
  {
    assert Reserved([], ["A"], 1, 3) == Outcome(Some("A"), [RoomSlot(3, "A")], []);
    assert DueBy([RoomSlot(3, "A")], 4) == 1;
    assert Reserved([], [], 7, 8).room == None;
    var m := new MeetingScheduler(["A"]);
    var r1 := m.ReserveRoom(1, 3, 1);
    m.CleanUpBusyRooms(5);
    r := m.ReserveRoom(7, 8, 3);
  }
}
