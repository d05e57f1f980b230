/** The foreign master data set of ptpd-2.0.0/src/bmc.c: a fixed array of records filled round
    robin and searched circularly from the last selected record. It is shown to refine a
    bounded first-in-first-out queue of masters. */
module ForeignMasters {
  import opened CInt
  import opened PtpData
  import opened DataSetComparison

  /** ForeignMasterDS with the contents of its record array. */
  datatype Table = Table(records: seq<Record>, count: nat, capacity: nat, i: nat, best: nat) {

    /** Every index the code forms stays inside the array. */
    predicate InBounds() {
      && count <= capacity <= |records|
      && capacity < 0x8000
      && i < capacity
      && best < capacity
    }

    /** The announces on which the best master clock algorithm runs. */
    function Heard(): (s: seq<Announce>)
      requires count <= |records|
      ensures |s| == count
    {
      seq(count, k requires 0 <= k < count => records[k].heard)
    }
  }

  // ---------------------------------------------------------------------------------------------
  // The operations of the code

  /** The search loop of `addForeign`: n more slots, the next one being j. */
  function FindFrom(t: Table, id: PortIdentity, j: nat, n: nat): (r: Option<nat>)
    requires t.InBounds() && n <= t.count && j < t.capacity
    ensures r.Some? ==> r.value < t.capacity && t.records[r.value].identity == id
    decreases n
  {
    if n == 0 then None
    else if t.records[j].identity == id then Some(j)
    else FindFrom(t, id, (j + 1) % t.count, n - 1)
  }

  /** A known master: its record takes the new announce. */
  function Refresh(t: Table, s: nat, m: Announce): (t': Table)
    requires t.InBounds() && s < t.capacity
    ensures t'.InBounds()
  {
    var r := t.records[s];
    t.(records := t.records[s := Record(r.identity, (r.announceMessages + 1) % 0x1_0000, m)])
  }

  /** A new master: it takes the slot of the round-robin cursor. */
  function Insert(t: Table, m: Announce): (t': Table)
    requires t.InBounds()
    ensures t'.InBounds()
  {
    t.(records := t.records[t.i := Record(m.header.sourcePortIdentity, 0, m)],
       count := if t.count < t.capacity then t.count + 1 else t.count,
       i := (t.i + 1) % t.capacity)
  }

  /** `addForeign` */
  function AddForeign(t: Table, m: Announce): (t': Table)
    requires t.InBounds()
    ensures t'.InBounds() && t'.capacity == t.capacity && t'.best == t.best
  {
    match FindFrom(t, m.header.sourcePortIdentity, t.best, t.count)
    case Some(s) => Refresh(t, s, m)
    case None => Insert(t, m)
  }

  /** What `bmc` does to the table. */
  function Select(t: Table, self: ClockIdentity, sign: ScanSign): (t': Table)
    requires t.InBounds()
    ensures t'.InBounds()
  {
    t.(best := Scan(t.Heard(), self, sign))
  }

  /** The announce receipt timeout of ptpd-2.0.0/src/protocol.c. */
  function Timeout(t: Table): (t': Table)
    requires t.InBounds()
    ensures t'.InBounds()
  {
    t.(count := 0, i := 0)
  }

  /** What `initData` does to the table. */
  function Initialize(t: Table, capacity: nat): Table {
    t.(count := 0, capacity := capacity)
  }

  // ---------------------------------------------------------------------------------------------
  // The queue it implements

  /** A master in the queue; `repeats` counts its announces since it entered. */
  datatype Entry = Entry(identity: PortIdentity, repeats: nat, heard: Announce)

  function Position(q: seq<Entry>, id: PortIdentity): (r: Option<nat>)
    ensures r.Some? ==> r.value < |q| && q[r.value].identity == id
    ensures r.None? ==> forall k | 0 <= k < |q| :: q[k].identity != id
  {
    if |q| == 0 then None
    else if q[|q| - 1].identity == id then Some(|q| - 1)
    else Position(q[..|q| - 1], id)
  }

  function Refreshed(q: seq<Entry>, k: nat, m: Announce): seq<Entry>
    requires k < |q|
  {
    q[k := Entry(q[k].identity, q[k].repeats + 1, m)]
  }

  function Admitted(q: seq<Entry>, capacity: nat, m: Announce): seq<Entry>
    requires |q| <= capacity && capacity > 0
  {
    (if |q| < capacity then q else q[1..]) + [Entry(m.header.sourcePortIdentity, 0, m)]
  }

  /** A known master is refreshed in place; a new one enters at the back and, when the queue
      is full, the one that entered first leaves. */
  function Hear(q: seq<Entry>, capacity: nat, m: Announce): (q': seq<Entry>)
    requires |q| <= capacity && capacity > 0
    ensures |q'| <= capacity
  {
    match Position(q, m.header.sourcePortIdentity)
    case Some(k) => Refreshed(q, k, m)
    case None => Admitted(q, capacity, m)
  }

  ghost predicate Distinct(q: seq<Entry>) {
    forall a, b | 0 <= a < b < |q| :: q[a].identity != q[b].identity
  }

  lemma HearKeepsDistinct(q: seq<Entry>, capacity: nat, m: Announce)
    requires |q| <= capacity && capacity > 0 && Distinct(q)
    ensures Distinct(Hear(q, capacity, m))
  {
  }

  // ---------------------------------------------------------------------------------------------
  // Refinement

  /** The slot of the k-th oldest master. */
  function Slot(t: Table, k: nat): nat
    requires k < t.count
  {
    if t.i + k < t.count then t.i + k else t.i + k - t.count
  }

  predicate Matches(r: Record, e: Entry) {
    r.identity == e.identity && r.announceMessages == e.repeats % 0x1_0000 && r.heard == e.heard
  }

  ghost predicate Represents(t: Table, q: seq<Entry>) {
    && t.InBounds()
    && |q| == t.count
    && (t.count < t.capacity ==> t.i == t.count)
    && forall k | 0 <= k < t.count :: Matches(t.records[Slot(t, k)], q[k])
  }

  /** The search starts inside the part of the array in use. */
  predicate CursorInUse(t: Table) {
    t.best < Max(t.count, 1)
  }

  lemma Wrap(x: nat, n: nat)
    requires x < 2 * n
    ensures x % n == if x < n then x else x - n
  {
  }

  /** The slot reached after m steps of the search from j. */
  function Visited(j: nat, m: nat, n: nat): (s: nat)
    requires j < n && m < n
    ensures s < n
  {
    if j + m < n then j + m else j + m - n
  }

  /** The number of steps after which the search from j reaches slot s. */
  function StepsTo(j: nat, s: nat, n: nat): (m: nat)
    requires j < n && s < n
    ensures m < n
  {
    if s >= j then s - j else s - j + n
  }

  /** This is where the loop's `(j + 1) % count` leads. */
  lemma VisitedStep(j: nat, m: nat, n: nat)
    requires j < n && m + 1 < n
    ensures Visited(j, 0, n) == j && Visited(j, m + 1, n) == (Visited(j, m, n) + 1) % n
  {
    Wrap(Visited(j, m, n) + 1, n);
  }

  /** The n steps of a search from a slot in use look at every slot in use exactly once. */
  lemma VisitsEachSlotOnce(j: nat, n: nat)
    requires j < n
    ensures forall s: nat | s < n :: Visited(j, StepsTo(j, s, n), n) == s
    ensures forall m: nat | m < n :: StepsTo(j, Visited(j, m, n), n) == m
  {
  }

  lemma {:induction false} FindFromVisits(t: Table, id: PortIdentity, j: nat, n: nat)
    requires t.InBounds() && n <= t.count && j < t.count
    ensures FindFrom(t, id, j, n).Some? ==> FindFrom(t, id, j, n).value < t.count
    ensures FindFrom(t, id, j, n).None? ==>
              forall m: nat | m < n :: t.records[Visited(j, m, t.count)].identity != id
    decreases n
  {
    if n > 0 && t.records[j].identity != id {
      var j' := (j + 1) % t.count;
      if t.count > 1 {
        VisitedStep(j, 0, t.count);
      }
      FindFromVisits(t, id, j', n - 1);
      if FindFrom(t, id, j', n - 1).None? {
        forall m: nat | m < n
          ensures t.records[Visited(j, m, t.count)].identity != id
        {
          if m > 0 {
            assert Visited(j, m, t.count) == Visited(j', m - 1, t.count);
          }
        }
      }
    }
  }

  /** A search finds an identity exactly when some record in use carries it. */
  lemma FindComplete(t: Table, id: PortIdentity)
    requires t.InBounds() && CursorInUse(t)
    ensures var r := FindFrom(t, id, t.best, t.count);
      && (r.Some? ==> r.value < t.count)
      && (r.None? <==> forall s | 0 <= s < t.count :: t.records[s].identity != id)
  {
    if t.count > 0 {
      FindFromVisits(t, id, t.best, t.count);
      VisitsEachSlotOnce(t.best, t.count);
      if FindFrom(t, id, t.best, t.count).None? {
        forall s | 0 <= s < t.count
          ensures t.records[s].identity != id
        {
          assert s == Visited(t.best, StepsTo(t.best, s, t.count), t.count);
        }
      }
    }
  }

  lemma SlotOf(t: Table, s: nat) returns (k: nat)
    requires s < t.count && t.i <= t.count
    ensures k < t.count && Slot(t, k) == s
  {
    k := if s >= t.i then s - t.i else s - t.i + t.count;
  }

  lemma RefreshRefines(t: Table, q: seq<Entry>, k: nat, m: Announce)
    requires Represents(t, q) && k < |q|
    ensures Represents(Refresh(t, Slot(t, k), m), Refreshed(q, k, m))
  {
  }

  lemma InsertRefines(t: Table, q: seq<Entry>, m: Announce)
    requires Represents(t, q)
    ensures Represents(Insert(t, m), Admitted(q, t.capacity, m))
  {
    Wrap(t.i + 1, t.capacity);
    var t', q' := Insert(t, m), Admitted(q, t.capacity, m);
    forall k | 0 <= k < t'.count
      ensures Matches(t'.records[Slot(t', k)], q'[k])
    {
      if k < t'.count - 1 {
        var o := if t.count < t.capacity then k else k + 1;
        assert Matches(t.records[Slot(t, o)], q[o]);
        assert Slot(t', k) == Slot(t, o) != t.i;
      } else {
        assert Slot(t', k) == t.i;
      }
    }
  }

  /** The search of the array and of the queue agree. */
  lemma SearchesAgree(t: Table, q: seq<Entry>, id: PortIdentity)
    requires Represents(t, q) && Distinct(q) && CursorInUse(t)
    ensures var s, k := FindFrom(t, id, t.best, t.count), Position(q, id);
      if s.None? then k.None? else k.Some? && s.value == Slot(t, k.value)
  {
    var s := FindFrom(t, id, t.best, t.count);
    FindComplete(t, id);
    if s.Some? {
      var k := SlotOf(t, s.value);
      assert Matches(t.records[Slot(t, k)], q[k]);
    } else {
      forall k | 0 <= k < |q|
        ensures q[k].identity != id
      {
        assert Matches(t.records[Slot(t, k)], q[k]);
      }
    }
  }

  /** One announce: the table does to its records what the queue does to its entries. */
  lemma AddForeignRefinesQueue(t: Table, q: seq<Entry>, m: Announce)
    requires Represents(t, q) && Distinct(q) && CursorInUse(t)
    ensures Represents(AddForeign(t, m), Hear(q, t.capacity, m))
    ensures CursorInUse(AddForeign(t, m))
  {
    SearchesAgree(t, q, Sender(m));
    match Position(q, Sender(m))
    case Some(k) => RefreshRefines(t, q, k, m);
    case None => InsertRefines(t, q, m);
  }

  lemma SelectKeepsQueue(t: Table, q: seq<Entry>, self: ClockIdentity, sign: ScanSign)
    requires Represents(t, q)
    ensures Represents(Select(t, self, sign), q) && CursorInUse(Select(t, self, sign))
  {
  }

  // ---------------------------------------------------------------------------------------------
  // Runs

  datatype Step = Heard(m: Announce) | Selected

  function Run(t: Table, steps: seq<Step>, self: ClockIdentity, sign: ScanSign): (t': Table)
    requires t.InBounds()
    ensures t'.InBounds() && t'.capacity == t.capacity
  {
    if |steps| == 0 then t
    else
      var before := Run(t, steps[..|steps| - 1], self, sign);
      match steps[|steps| - 1]
      case Heard(m) => AddForeign(before, m)
      case Selected => Select(before, self, sign)
  }

  function Messages(steps: seq<Step>): seq<Announce> {
    if |steps| == 0 then []
    else
      Messages(steps[..|steps| - 1]) +
      match steps[|steps| - 1]
      case Heard(m) => [m]
      case Selected => []
  }

  function Queue(messages: seq<Announce>, capacity: nat): (q: seq<Entry>)
    requires capacity > 0
    ensures |q| <= capacity
  {
    if |messages| == 0 then []
    else Hear(Queue(messages[..|messages| - 1], capacity), capacity, messages[|messages| - 1])
  }

  lemma {:induction false} QueueDistinct(messages: seq<Announce>, capacity: nat)
    requires capacity > 0
    ensures Distinct(Queue(messages, capacity))
  {
    if |messages| > 0 {
      QueueDistinct(messages[..|messages| - 1], capacity);
      HearKeepsDistinct(Queue(messages[..|messages| - 1], capacity), capacity, messages[|messages| - 1]);
    }
  }

  /** A table as the zeroed PtpClock has it after `initData`. */
  predicate Fresh(t: Table) {
    t.InBounds() && t.count == 0 && t.i == 0 && t.best == 0
  }

  /** Every run of announces and selections from a fresh table leaves the queue of the announces
      heard in the table, with pairwise different identities. */
  lemma {:induction false} RunRefinesQueue(t: Table, steps: seq<Step>, self: ClockIdentity, sign: ScanSign)
    requires Fresh(t)
    ensures var t' := Run(t, steps, self, sign);
      && Represents(t', Queue(Messages(steps), t.capacity))
      && CursorInUse(t')
      && (forall a, b | 0 <= a < b < t'.count :: t'.records[a].identity != t'.records[b].identity)
  {
    if |steps| > 0 {
      var before := steps[..|steps| - 1];
      RunRefinesQueue(t, before, self, sign);
      QueueDistinct(Messages(before), t.capacity);
      match steps[|steps| - 1]
      case Heard(m) =>
        AddForeignRefinesQueue(Run(t, before, self, sign), Queue(Messages(before), t.capacity), m);
        assert (Messages(before) + [m])[..|Messages(before)|] == Messages(before);
        assert Messages(steps) == Messages(before) + [m];
      case Selected =>
        SelectKeepsQueue(Run(t, before, self, sign), Queue(Messages(before), t.capacity), self, sign);
        assert Messages(steps) == Messages(before);
    }
    RecordsDistinct(Run(t, steps, self, sign), Messages(steps));
  }

  lemma RecordsDistinct(t: Table, messages: seq<Announce>)
    requires t.capacity > 0 && Represents(t, Queue(messages, t.capacity))
    ensures forall a, b | 0 <= a < b < t.count :: t.records[a].identity != t.records[b].identity
  {
    var q := Queue(messages, t.capacity);
    QueueDistinct(messages, t.capacity);
    forall a, b | 0 <= a < b < t.count
      ensures t.records[a].identity != t.records[b].identity
    {
      var k := SlotOf(t, a);
      var l := SlotOf(t, b);
      assert Matches(t.records[a], q[k]) && Matches(t.records[b], q[l]);
    }
  }

  // ---------------------------------------------------------------------------------------------
  // The queue in terms of what was heard

  function Sender(m: Announce): PortIdentity {
    m.header.sourcePortIdentity
  }

  function Repeats(messages: seq<Announce>, id: PortIdentity): nat {
    if |messages| == 0 then 0
    else Repeats(messages[..|messages| - 1], id) + if Sender(messages[|messages| - 1]) == id then 1 else 0
  }

  /** The last announce of a sender. */
  function Latest(messages: seq<Announce>, id: PortIdentity): Option<Announce> {
    if |messages| == 0 then None
    else if Sender(messages[|messages| - 1]) == id then Some(messages[|messages| - 1])
    else Latest(messages[..|messages| - 1], id)
  }

  /** An entry read off the history: it holds the last announce of its sender and has counted
      the ones after the one with which it entered. */
  predicate ReadOff(e: Entry, entered: nat, messages: seq<Announce>) {
    && entered < |messages|
    && e.identity == Sender(messages[entered])
    && e.repeats == Repeats(messages[entered + 1..], e.identity)
    && Latest(messages, e.identity) == Some(e.heard)
  }

  lemma ReadOffNext(e: Entry, entered: nat, messages: seq<Announce>, m: Announce)
    requires ReadOff(e, entered, messages)
    ensures ReadOff(if Sender(m) == e.identity then Entry(e.identity, e.repeats + 1, m) else e,
                    entered, messages + [m])
  {
    var tail := messages[entered + 1..];
    assert (messages + [m])[entered + 1..] == tail + [m];
    assert (tail + [m])[..|tail|] == tail;
    assert (messages + [m])[..|messages|] == messages;
  }

  lemma ReadOffEntrance(messages: seq<Announce>, m: Announce)
    ensures ReadOff(Entry(Sender(m), 0, m), |messages|, messages + [m])
  {
  }

  /** A queue is the window of the last entrances. */
  ghost predicate IsWindow(q: seq<Entry>, log: seq<nat>, capacity: nat, messages: seq<Announce>) {
    && |q| == Min(|log|, capacity)
    && forall k | 0 <= k < |q| :: ReadOff(q[k], log[|log| - |q| + k], messages)
  }

  lemma WindowHears(q: seq<Entry>, log: seq<nat>, capacity: nat, messages: seq<Announce>, m: Announce)
    requires capacity > 0 && IsWindow(q, log, capacity, messages) && Distinct(q)
    ensures IsWindow(Hear(q, capacity, m),
                     if Position(q, Sender(m)).Some? then log else log + [|messages|],
                     capacity, messages + [m])
  {
    match Position(q, Sender(m))
    case Some(p) => WindowRefreshes(q, p, log, capacity, messages, m);
    case None => WindowAdmits(q, log, capacity, messages, m);
  }

  lemma WindowRefreshes(q: seq<Entry>, p: nat, log: seq<nat>, capacity: nat, messages: seq<Announce>, m: Announce)
    requires IsWindow(q, log, capacity, messages) && Distinct(q)
    requires p < |q| && q[p].identity == Sender(m)
    ensures IsWindow(Refreshed(q, p, m), log, capacity, messages + [m])
  {
    var q' := Refreshed(q, p, m);
    forall k | 0 <= k < |q'|
      ensures ReadOff(q'[k], log[|log| - |q'| + k], messages + [m])
    {
      ReadOffNext(q[k], log[|log| - |q| + k], messages, m);
    }
  }

  lemma WindowAdmits(q: seq<Entry>, log: seq<nat>, capacity: nat, messages: seq<Announce>, m: Announce)
    requires capacity > 0 && IsWindow(q, log, capacity, messages)
    requires forall k | 0 <= k < |q| :: q[k].identity != Sender(m)
    ensures IsWindow(Admitted(q, capacity, m),
                     log + [|messages|], capacity, messages + [m])
  {
    var q' := Admitted(q, capacity, m);
    var log' := log + [|messages|];
    forall k | 0 <= k < |q'|
      ensures ReadOff(q'[k], log'[|log'| - |q'| + k], messages + [m])
    {
      if k < |q'| - 1 {
        var o := k + |q| - (|q'| - 1);
        assert q'[k] == q[o] && log'[|log'| - |q'| + k] == log[|log| - |q| + o];
        ReadOffNext(q[o], log[|log| - |q| + o], messages, m);
      } else {
        ReadOffEntrance(messages, m);
      }
    }
  }

  predicate AmongLast(log: seq<nat>, capacity: nat, messages: seq<Announce>, id: PortIdentity)
    requires forall k | 0 <= k < |log| :: log[k] < |messages|
  {
    exists k :: 0 <= k < |log| && |log| <= k + capacity && Sender(messages[log[k]]) == id
  }

  lemma WindowSenders(q: seq<Entry>, log: seq<nat>, capacity: nat, messages: seq<Announce>, id: PortIdentity)
    requires IsWindow(q, log, capacity, messages) && forall k | 0 <= k < |log| :: log[k] < |messages|
    ensures AmongLast(log, capacity, messages, id) <==> Position(q, id).Some?
  {
    if AmongLast(log, capacity, messages, id) {
      var k :| 0 <= k < |log| && |log| <= k + capacity && Sender(messages[log[k]]) == id;
      var o := k - (|log| - |q|);
      assert ReadOff(q[o], log[|log| - |q| + o], messages);
    }
    if Position(q, id).Some? {
      var p := Position(q, id).value;
      assert ReadOff(q[p], log[|log| - |q| + p], messages);
      assert Sender(messages[log[|log| - |q| + p]]) == id;
    }
  }

  /** The times at which masters entered: a sender enters when it is not among the last
      `capacity` to have entered. */
  function Entrances(messages: seq<Announce>, capacity: nat): (log: seq<nat>)
    ensures forall k | 0 <= k < |log| :: log[k] < |messages|
  {
    if |messages| == 0 then []
    else
      var before := messages[..|messages| - 1];
      var log := Entrances(before, capacity);
      if AmongLast(log, capacity, before, Sender(messages[|messages| - 1])) then log else log + [|before|]
  }

  lemma OneMore(before: seq<Announce>, m: Announce, capacity: nat)
    requires capacity > 0
    ensures Queue(before + [m], capacity) == Hear(Queue(before, capacity), capacity, m)
    ensures var log := Entrances(before, capacity);
      Entrances(before + [m], capacity) ==
        if AmongLast(log, capacity, before, Sender(m)) then log else log + [|before|]
  {
  }

  /** The queue is the window of the last `capacity` entrances: eviction takes exactly the master
      that entered first. Every entry holds the latest announce of its sender and counts its
      repeats since it entered. */
  lemma {:induction false} QueueIsWindowOfEntrances(messages: seq<Announce>, capacity: nat)
    requires capacity > 0
    ensures IsWindow(Queue(messages, capacity), Entrances(messages, capacity), capacity, messages)
  {
    if |messages| > 0 {
      var before, m := messages[..|messages| - 1], messages[|messages| - 1];
      assert messages == before + [m];
      QueueIsWindowOfEntrances(before, capacity);
      WindowGrows(before, m, capacity);
    }
  }

  lemma WindowGrows(before: seq<Announce>, m: Announce, capacity: nat)
    requires capacity > 0
    requires IsWindow(Queue(before, capacity), Entrances(before, capacity), capacity, before)
    ensures IsWindow(Queue(before + [m], capacity), Entrances(before + [m], capacity), capacity, before + [m])
  {
    var q, log := Queue(before, capacity), Entrances(before, capacity);
    OneMore(before, m, capacity);
    QueueDistinct(before, capacity);
    WindowSenders(q, log, capacity, before, Sender(m));
    WindowHears(q, log, capacity, before, m);
  }

  // ---------------------------------------------------------------------------------------------
  // Resets that forget a cursor

  /** The announce receipt timeout clears `count` and `i` but not `best`: the table is an empty
      queue with its cursor in use exactly when `best` was 0. */
  lemma TimeoutIsEmptyQueue(t: Table)
    requires t.InBounds()
    ensures Represents(Timeout(t), [])
    ensures CursorInUse(Timeout(t)) <==> t.best == 0
  {
  }

  /** Otherwise the next two announces of one sender miss each other: the sender occupies two
      records, or its second announce lands outside the records in use. */
  lemma TimeoutForgetsCursor(t: Table, m: Announce, m': Announce)
    requires t.InBounds() && Sender(m) == Sender(m')
    ensures Represents(AddForeign(AddForeign(Timeout(t), m), m'), Queue([m, m'], t.capacity)) <==> t.best == 0
  {
    var t1 := AddForeign(Timeout(t), m);
    var q1 := Queue([m], t.capacity);
    assert [m, m'][..1] == [m] && [m][..0] == [];
    assert Hear([], t.capacity, m) == [Entry(Sender(m), 0, m)];
    assert Queue([], t.capacity) == [];
    assert q1 == Hear(Queue([m][..0], t.capacity), t.capacity, m);
    assert Queue([m, m'], t.capacity) == Hear(q1, t.capacity, m');
    if t.best == 0 {
      AddForeignRefinesQueue(Timeout(t), [], m);
      AddForeignRefinesQueue(t1, q1, m');
    } else {
      Wrap(1, t.capacity);
      assert t1.count == 1 && t1.i == 1 && t1.records[0] == Record(Sender(m), 0, m);
      var t2 := AddForeign(t1, m');
      assert Hear(q1, t.capacity, m') == [Entry(Sender(m), 1, m')];
      if t.records[t.best].identity == Sender(m) {
        assert FindFrom(t1, Sender(m), t.best, 1) == Some(t.best);
        assert t2.count == 1 && t2.records[Slot(t2, 0)].announceMessages == 0;
      } else {
        assert FindFrom(t1, Sender(m), t.best, 1).None?;
        assert t2.count == 2;
      }
    }
  }

  /** `initData` clears `count` alone: the table is an empty queue exactly when `i` was 0. */
  lemma InitializeIsEmptyQueue(t: Table)
    requires t.InBounds()
    ensures Represents(Initialize(t, t.capacity), []) <==> t.i == 0
  {
  }

  /** After it the next two announces of one sender leave the table of their queue exactly when
      both cursors were 0. */
  lemma InitializeForgetsCursors(t: Table, capacity: nat, m: Announce, m': Announce)
    requires Initialize(t, capacity).InBounds() && Sender(m) == Sender(m')
    ensures Represents(AddForeign(AddForeign(Initialize(t, capacity), m), m'), Queue([m, m'], capacity)) <==>
              t.i == 0 && t.best == 0
  {
    var u := Initialize(t, capacity);
    if t.i == 0 {
      assert Timeout(u) == u;
      TimeoutForgetsCursor(u, m, m');
    } else {
      QueueOfOne(m, m', capacity);
      Wrap(t.i + 1, capacity);
      var t1 := AddForeign(u, m);
      assert t1.count == 1 && t1.i != 1 && AddForeign(t1, m').count <= 2;
    }
  }

  lemma QueueOfOne(m: Announce, m': Announce, capacity: nat)
    requires capacity > 0 && Sender(m) == Sender(m')
    ensures Queue([m, m'], capacity) == [Entry(Sender(m), 1, m')]
  {
    assert [m, m'][..1] == [m] && [m][..0] == [];
    assert Queue([], capacity) == [] && Queue([m], capacity) == [Entry(Sender(m), 0, m)];
    assert Queue([m, m'], capacity) == Hear(Queue([m], capacity), capacity, m');
  }

  /** And what `bmc` then reads is the one announce heard since exactly when `i` was 0, or slot 0
      still held that same announce from before. */
  lemma InitializeThenReads(t: Table, capacity: nat, m: Announce)
    requires Initialize(t, capacity).InBounds()
    ensures AddForeign(Initialize(t, capacity), m).Heard() == [m] <==> t.i == 0 || t.records[0].heard == m
  {
    var t' := AddForeign(Initialize(t, capacity), m);
    assert t'.Heard() == [t'.records[0].heard];
  }

  // ---------------------------------------------------------------------------------------------
  // A circle in the table

  /** A new sender before the table has filled up takes the next slot. */
  lemma HearsNew(t: Table, m: Announce)
    requires t.InBounds() && t.best == 0 && t.i == t.count < t.capacity
    requires forall s | 0 <= s < t.count :: Sender(t.records[s].heard) == t.records[s].identity != Sender(m)
    ensures var t' := AddForeign(t, m);
      && t' == t.(records := t.records[t.count := Record(Sender(m), 0, m)], count := t.count + 1, i := (t.count + 1) % t.capacity)
      && t'.Heard() == t.Heard() + [m]
  {
    FindComplete(t, Sender(m));
  }

  lemma HeardInOrder(t: Table, a: Announce, b: Announce, c: Announce)
    requires Fresh(t) && t.capacity >= 3
    requires Sender(a) != Sender(b) && Sender(b) != Sender(c) && Sender(a) != Sender(c)
    ensures var t' := AddForeign(AddForeign(AddForeign(t, a), b), c);
      t'.count == 3 && t'.Heard() == [a, b, c]
  {
    var t1 := AddForeign(t, a);
    HearsNew(t, a);
    Wrap(1, t.capacity);
    HearsNew(t1, b);
    Wrap(2, t.capacity);
    HearsNew(AddForeign(t1, b), c);
  }

  /** Three announces that beat each other in a circle, heard by a fresh table in any order: `bmc`
      selects the one heard last, whichever it is and whatever the sign. */
  lemma CircleSelectsLastHeard(t: Table, a: Announce, b: Announce, c: Announce, self: ClockIdentity, sign: ScanSign)
    requires Fresh(t) && t.capacity >= 3
    requires Circle(a, b, c, self) || Circle(b, a, c, self)
    requires Sender(a) != Sender(b) && Sender(b) != Sender(c) && Sender(a) != Sender(c)
    ensures var t' := Run(t, [Heard(a), Heard(b), Heard(c), Selected], self, sign);
      t'.count == 3 && t'.records[t'.best].heard == c
  {
    var steps := [Heard(a), Heard(b), Heard(c), Selected];
    assert steps[..3][..2] == [Heard(a), Heard(b)] && steps[..3] == [Heard(a), Heard(b), Heard(c)];
    assert [Heard(a), Heard(b)][..1] == [Heard(a)] && [Heard(a)][..0] == [];
    assert Run(t, [Heard(a)], self, sign) == AddForeign(t, a);
    assert Run(t, [Heard(a), Heard(b)], self, sign) == AddForeign(AddForeign(t, a), b);
    assert Run(t, steps[..3], self, sign) == AddForeign(AddForeign(AddForeign(t, a), b), c);
    HeardInOrder(t, a, b, c);
    CircleSelectsLast(a, b, c, self, sign);
    var t3 := Run(t, steps[..3], self, sign);
    assert t3.Heard()[2] == c;
  }
}
