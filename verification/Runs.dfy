/**
 What holds over every run of feeds, dequeues, resets, sends and drains of
 one context: what queue entries point at, which events are delivered, and
 the order of phases.
 */
module Runs {
  import opened Wire
  import opened Messages
  import opened Parsers
  import opened Engine

  // ---------- what queue entries point at ----------

  ghost predicate RowHolds(m: Memory, slices: seq<Option<Slice>>, values: seq<Option<Bytes>>) {
    && |slices| == |values|
    && forall j :: 0 <= j < |slices| ==> ColumnHolds(m, slices[j], values[j])
  }

  ghost predicate ColumnHolds(m: Memory, slice: Option<Slice>, value: Option<Bytes>) {
    match slice
    case None => value.None?
    case Some(sl) =>
      && sl.off + sl.len <= m.used <= |m.arena|
      && value == Some(m.arena[sl.off..sl.off + sl.len])
  }

  /** The entry has the type of the logged event, and its own bytes unless they are in scratch. */
  ghost predicate Holds(m: Memory, slot: Slot, ev: Event) {
    match slot
    case Plain(e) => e == ev && KindOf(ev) == Unshared
    case StartupSlot => ev.Startup?
    case QuerySlot => ev.Query?
    case TagSlot => ev.CommandComplete?
    case ColumnsSlot(n) => ev.RowDescription? && |ev.columns| == n <= MAX_ROW_COLUMNS
    case RowSlot(slices) => ev.DataRow? && RowHolds(m, slices, ev.values)
  }

  function Somes(slices: seq<Option<Slice>>): (r: seq<Slice>) {
    if slices == [] then []
    else (if slices[0].Some? then [slices[0].value] else []) + Somes(slices[1..])
  }

  function SlotSlices(slot: Slot): (r: seq<Slice>) {
    if slot.RowSlot? then Somes(slot.slices) else []
  }

  /** Slices between `lo` and `hi`, each after the end of those before it. */
  ghost predicate LaidOut(ss: seq<Slice>, lo: nat, hi: nat) {
    && (forall i :: 0 <= i < |ss| ==> lo <= ss[i].off && ss[i].off + ss[i].len <= hi)
    && (forall i, j :: 0 <= i < j < |ss| ==> ss[i].off + ss[i].len <= ss[j].off)
  }

  /** Every slice of one row ends before any slice of the other starts. */
  ghost predicate Before(a: seq<Slice>, b: seq<Slice>) {
    forall i, j :: 0 <= i < |a| && 0 <= j < |b| ==> a[i].off + a[i].len <= b[j].off
  }

  /** The slices of queued rows are pairwise disjoint and below `hi`. */
  ghost predicate RowsLaidOut(ring: seq<Slot>, hi: nat) {
    && (forall i :: 0 <= i < |ring| ==> LaidOut(SlotSlices(ring[i]), 0, hi))
    && (forall i, j :: 0 <= i < j < |ring| ==> Before(SlotSlices(ring[i]), SlotSlices(ring[j])))
  }

  /** The entries match the end of the log, one by one. */
  ghost predicate MatchesLog(m: Memory, ring: seq<Slot>, log: seq<Event>) {
    && |ring| <= |log|
    && forall i :: 0 <= i < |ring| ==> Holds(m, ring[i], log[|log| - |ring| + i])
  }

  ghost predicate QueueHolds(s: State) {
    RowsLaidOut(s.ring, s.mem.used) && MatchesLog(s.mem, s.ring, s.log)
  }

  // ---------- what the scratch areas hold ----------

  datatype Kind = StartupKind | QueryKind | TagKind | ColumnsKind | Unshared

  function KindOf(ev: Event): (r: Kind) {
    match ev
    case Startup(_, _) => StartupKind
    case Query(_) => QueryKind
    case CommandComplete(_) => TagKind
    case RowDescription(_) => ColumnsKind
    case _ => Unshared
  }

  function Newest(log: seq<Event>, kind: Kind): (r: Option<Event>)
    ensures r.Some? ==> KindOf(r.value) == kind
  {
    if log == [] then None
    else if KindOf(log[|log| - 1]) == kind then Some(log[|log| - 1])
    else Newest(log[..|log| - 1], kind)
  }

  ghost predicate ScratchHas(sc: Scratch, ev: Event) {
    match ev
    case Startup(user, database) => sc.user == user && sc.database == database
    case Query(sql) => sc.sql == sql
    case CommandComplete(tag) => sc.tag == tag
    case RowDescription(cs) => cs <= sc.columns
    case _ => true
  }

  ghost predicate ScratchHolds(s: State) {
    forall k :: Newest(s.log, k).Some? ==> ScratchHas(s.mem.scratch, Newest(s.log, k).value)
  }

  // ---------- the history of the column area ----------

  /** One entry of the column area after one write. */
  function Written(col: Column, w: ColumnWrite, c: nat): (r: Column) {
    if c < |w.columns| then w.columns[c]
    else if c == |w.columns| && w.cut.Some? then col.(name := w.cut.value)
    else col
  }

  function EntryAfter(col: Column, writes: seq<ColumnWrite>, c: nat): (r: Column) {
    if writes == [] then col
    else Written(EntryAfter(col, writes[..|writes| - 1], c), writes[|writes| - 1], c)
  }

  lemma {:induction false} EntryAfterMore(col: Column, a: seq<ColumnWrite>, b: seq<ColumnWrite>, c: nat)
    ensures EntryAfter(col, a + b, c) == EntryAfter(EntryAfter(col, a, c), b, c)
    decreases |b|
  {
    if b == [] {
      Neutral(a);
    } else {
      var n := |b| - 1;
      assert (a + b)[..|a| + n] == a + b[..n];
      EntryAfterMore(col, a, b[..n], c);
    }
  }

  function Descriptions(log: seq<Event>): (r: nat)
    ensures r <= |log|
  {
    if log == [] then 0
    else Descriptions(log[..|log| - 1]) + if log[|log| - 1].RowDescription? then 1 else 0
  }

  /** The area is the outcome of its writes, and each logged RowDescription is one of them. */
  ghost predicate ColumnHistory(sc: Scratch, log: seq<Event>) {
    && Descriptions(log) == |sc.writes|
    && (forall c :: 0 <= c < |sc.columns| ==> sc.columns[c] == EntryAfter(EmptyColumn, sc.writes, c))
    && (forall j :: 0 <= j < |log| && log[j].RowDescription? ==> WrittenAt(sc, log, j))
  }

  ghost predicate WrittenAt(sc: Scratch, log: seq<Event>, j: nat)
    requires j < |log| && log[j].RowDescription?
  {
    var k := Descriptions(log[..j]);
    k < |sc.writes| && sc.writes[k].columns == log[j].columns
  }

  /** A handler made one more write, of these columns. */
  ghost predicate Recorded(sc: Scratch, sc': Scratch, cs: seq<Column>) {
    && |sc'.columns| == |sc.columns| && sc.writes < sc'.writes && |sc'.writes| == |sc.writes| + 1
    && var w := sc'.writes[|sc.writes|];
       && w.columns == cs
       && forall c :: 0 <= c < |sc.columns| ==> sc'.columns[c] == Written(sc.columns[c], w, c)
  }

  lemma HistoryKept(sc: Scratch, sc': Scratch, log: seq<Event>, ev: Event)
    requires ColumnHistory(sc, log)
    requires if ev.RowDescription? then Recorded(sc, sc', ev.columns)
             else sc'.columns == sc.columns && sc'.writes == sc.writes
    ensures ColumnHistory(sc', log + [ev])
  {
    var log' := log + [ev];
    assert log'[..|log|] == log;
    if ev.RowDescription? {
      assert sc'.writes[..|sc.writes|] == sc.writes;
    }
    forall j | 0 <= j < |log'| && log'[j].RowDescription?
      ensures WrittenAt(sc', log', j)
    {
      assert log'[..j] == log[..j];
      if j < |log| {
        assert WrittenAt(sc, log, j);
      }
    }
  }

  // ---------- the order of events and phases ----------

  ghost predicate OnlyErrors(es: seq<Event>) { forall i :: 0 <= i < |es| ==> es[i] == ProtocolError }

  ghost predicate NoStartup(es: seq<Event>) { forall i :: 0 <= i < |es| ==> !es[i].Startup? }

  ghost predicate OneStartup(es: seq<Event>, k: nat) {
    && k < |es| && es[k].Startup?
    && (forall i :: 0 <= i < k ==> es[i] == ProtocolError)
    && (forall i :: k < i < |es| ==> !es[i].Startup?)
  }

  ghost predicate InOrder(s: State)
    requires Valid(s)
  {
    var es := s.log[s.epoch..];
    && s.mem.phase != ErrorPhase
    && (s.role == Client ==>
          !s.started && NoStartup(es) && (s.mem.phase == StartupPhase || s.mem.phase == Ready))
    && (s.role == Server && !s.started ==>
          OnlyErrors(es) && (s.mem.phase == StartupPhase || s.mem.phase == Ready))
    && (s.role == Server && s.started ==> exists k :: OneStartup(es, k))
  }

  ghost predicate Inv(s: State) {
    Valid(s) && QueueHolds(s) && ScratchHolds(s) && ColumnHistory(s.mem.scratch, s.log) && InOrder(s)
  }

  lemma InitialInv(s: State)
    requires Initial(s)
    ensures Inv(s)
  {
  }

  // ---------- one handled message ----------

  /** What a handler may do to the memory, and what it must have stored for its event. */
  ghost predicate GoodEffect(m: Memory, effect: (Option<Emission>, Memory)) {
    var m' := effect.1;
    && ValidMemory(m) && ValidMemory(m')
    && m.used <= m'.used && m.arena[..m.used] == m'.arena[..m.used]
    && match effect.0
       case None => m' == m
       case Some(e) =>
         && Holds(m', e.slot, e.event)
         && LaidOut(SlotSlices(e.slot), m.used, m'.used)
         && ScratchHas(m'.scratch, e.event)
         && SharesOnly(m.scratch, m'.scratch, KindOf(e.event))
         && (e.event.RowDescription? ==> Recorded(m.scratch, m'.scratch, e.event.columns))
  }

  /** Only the scratch area of this kind of event was written. */
  ghost predicate SharesOnly(sc: Scratch, sc': Scratch, kind: Kind) {
    && (kind != StartupKind ==> sc.user == sc'.user && sc.database == sc'.database)
    && (kind != QueryKind ==> sc.sql == sc'.sql)
    && (kind != TagKind ==> sc.tag == sc'.tag)
    && (kind != ColumnsKind ==> sc.columns == sc'.columns && sc.writes == sc'.writes)
  }

  lemma RowHoldsCons(m: Memory, x: Option<Slice>, v: Option<Bytes>, slices: seq<Option<Slice>>,
                     values: seq<Option<Bytes>>)
    requires ColumnHolds(m, x, v) && RowHolds(m, slices, values)
    ensures RowHolds(m, [x] + slices, [v] + values)
  {
    hide ColumnHolds;
    forall j | 0 <= j < |slices| + 1
      ensures ColumnHolds(m, ([x] + slices)[j], ([v] + values)[j])
    {
      if j > 0 {
        assert ColumnHolds(m, slices[j - 1], values[j - 1]);
      }
    }
  }

  lemma LaidOutCons(x: Slice, ss: seq<Slice>, hi: nat)
    requires LaidOut(ss, x.off + x.len, hi) && x.off + x.len <= hi
    ensures LaidOut([x] + ss, x.off, hi)
  {
    var all := [x] + ss;
    forall i | 0 <= i < |all|
      ensures x.off <= all[i].off && all[i].off + all[i].len <= hi
    {
      if i > 0 {
        assert all[i] == ss[i - 1];
      }
    }
    forall i, j | 0 <= i < j < |all|
      ensures all[i].off + all[i].len <= all[j].off
    {
      assert all[j] == ss[j - 1];
      if i > 0 {
        assert all[i] == ss[i - 1];
      }
    }
  }

  /** What a placed row keeps of the memory it was placed in. */
  ghost predicate PlacedIn(m: Memory, r: Row) {
    && |r.arena| == |m.arena| && m.used <= r.used <= |r.arena|
    && r.arena[..m.used] == m.arena[..m.used]
    && RowHolds(m.(arena := r.arena, used := r.used), r.slices, r.values)
    && LaidOut(Somes(r.slices), m.used, r.used)
  }

  lemma PlacedFirst(m: Memory, v: Bytes, r: Row)
    requires ValidMemory(m) && m.used + |v| <= |m.arena|
    requires PlacedIn(m.(arena := Stored(m.arena, m.used, v), used := m.used + |v|), r)
    ensures PlacedIn(m, r.(slices := [Some(Slice(m.used, |v|))] + r.slices, values := [Some(v)] + r.values))
  {
    hide LaidOut, RowHolds, Stored;
    var m' := m.(arena := r.arena, used := r.used);
    var x := Slice(m.used, |v|);
    StoredPrefix(m.arena, m.used, v, r.arena);
    RowHoldsCons(m', Some(x), Some(v), r.slices, r.values);
    SomesCons(Some(x), r.slices);
    LaidOutCons(x, Somes(r.slices), r.used);
  }

  lemma PlacedNone(m: Memory, r: Row)
    requires PlacedIn(m, r)
    ensures PlacedIn(m, r.(slices := [None] + r.slices, values := [None] + r.values))
  {
    hide LaidOut, RowHolds;
    RowHoldsCons(m.(arena := r.arena, used := r.used), None, None, r.slices, r.values);
    SomesCons(None, r.slices);
    Neutral(Somes(r.slices));
  }

  lemma PlaceStores(values: seq<Option<Bytes>>, arena: Bytes, used: nat)
    requires used <= |arena| && values != [] && values[0].Some? && used + |values[0].value| <= |arena|
    ensures var v := values[0].value;
            var r := Place(values[1..], Stored(arena, used, v), used + |v|);
            Place(values, arena, used)
            == r.(slices := [Some(Slice(used, |v|))] + r.slices, values := [Some(v)] + r.values)
  {
  }

  lemma PlaceDrops(values: seq<Option<Bytes>>, arena: Bytes, used: nat)
    requires used <= |arena| && values != []
    requires values[0].Some? ==> used + |values[0].value| > |arena|
    ensures var r := Place(values[1..], arena, used);
            Place(values, arena, used) == r.(slices := [None] + r.slices, values := [None] + r.values)
  {
  }

  lemma PlacedNothing(m: Memory)
    requires ValidMemory(m)
    ensures PlacedIn(m, Place([], m.arena, m.used))
  {
  }

  lemma {:induction false} PlaceIsGood(values: seq<Option<Bytes>>, m: Memory)
    requires ValidMemory(m)
    ensures PlacedIn(m, Place(values, m.arena, m.used))
    decreases |values|
  {
    hide PlacedIn, Place, Stored;
    if values == [] {
      PlacedNothing(m);
    } else if values[0].Some? && m.used + |values[0].value| <= |m.arena| {
      var v := values[0].value;
      var n := m.(arena := Stored(m.arena, m.used, v), used := m.used + |v|);
      PlaceIsGood(values[1..], n);
      PlacedFirst(m, v, Place(values[1..], n.arena, n.used));
      PlaceStores(values, m.arena, m.used);
    } else {
      PlaceIsGood(values[1..], m);
      PlacedNone(m, Place(values[1..], m.arena, m.used));
      PlaceDrops(values, m.arena, m.used);
    }
  }

  /** What later values leave of the arena with a value stored in it. */
  lemma StoredPrefix(arena: Bytes, used: nat, v: Bytes, later: Bytes)
    requires used + |v| <= |arena| == |later|
    requires later[..used + |v|] == Stored(arena, used, v)[..used + |v|]
    ensures later[..used] == arena[..used] && later[used..used + |v|] == v
  {
    var front := Stored(arena, used, v)[..used + |v|];
    assert front == arena[..used] + v;
    assert later[..used] == front[..used] && later[used..used + |v|] == front[used..];
  }

  lemma SomesCons(x: Option<Slice>, xs: seq<Option<Slice>>)
    ensures Somes([x] + xs) == (if x.Some? then [x.value] else []) + Somes(xs)
  {
    assert ([x] + xs)[1..] == xs;
  }

  lemma DataRowIsGood(m: Memory, body: Bytes)
    requires ValidMemory(m)
    ensures GoodEffect(m, DataRowEffect(m, body))
  {
    if |body| >= 2 {
      PlaceIsGood(TakeValues(body[2..], Min(Rd16(body, 0), MAX_ROW_COLUMNS)), m);
    }
  }

  lemma RowDescriptionIsGood(m: Memory, body: Bytes)
    requires ValidMemory(m)
    ensures GoodEffect(m, RowDescriptionEffect(m, body))
  {
    if |body| >= 2 {
      var (cs, cut) := TakeColumns(body[2..], Min(Rd16(body, 0), MAX_ROW_COLUMNS));
      var cols := Overwritten(m.scratch.columns, cs, cut);
      assert cs <= cols;
      forall c | 0 <= c < |cols|
        ensures cols[c] == Written(m.scratch.columns[c], ColumnWrite(cs, cut), c)
      {
      }
    }
  }

  lemma MessageEffectIsGood(role: Role, m: Memory, tag: byte, body: Bytes)
    requires ValidMemory(m)
    ensures GoodEffect(m, MessageEffect(role, m, tag, body))
  {
    if role == Client && tag == ROW_DESCRIPTION {
      RowDescriptionIsGood(m, body);
    } else if role == Client && tag == DATA_ROW {
      DataRowIsGood(m, body);
    }
  }

  lemma SamePrefixSameSlice(a: Bytes, b: Bytes, n: nat, lo: nat, hi: nat)
    requires lo <= hi <= n <= |a| && n <= |b| && a[..n] == b[..n]
    ensures a[lo..hi] == b[lo..hi]
  {
    assert a[lo..hi] == a[..n][lo..hi];
    assert b[lo..hi] == b[..n][lo..hi];
  }

  /** Entries keep what they hold when only the free part of the arena is written. */
  lemma HoldsKept(m: Memory, m': Memory, slot: Slot, ev: Event)
    requires ValidMemory(m) && ValidMemory(m') && Holds(m, slot, ev)
    requires m.used <= m'.used && m.arena[..m.used] == m'.arena[..m.used]
    ensures Holds(m', slot, ev)
  {
    if slot.RowSlot? {
      forall j | 0 <= j < |slot.slices|
        ensures ColumnHolds(m', slot.slices[j], ev.values[j])
      {
        assert ColumnHolds(m, slot.slices[j], ev.values[j]);
        if slot.slices[j].Some? {
          var sl := slot.slices[j].value;
          SamePrefixSameSlice(m.arena, m'.arena, m.used, sl.off, sl.off + sl.len);
        }
      }
    }
  }

  lemma LaidOutWider(ss: seq<Slice>, lo: nat, hi: nat, lo': nat, hi': nat)
    requires LaidOut(ss, lo, hi) && lo' <= lo && hi <= hi'
    ensures LaidOut(ss, lo', hi')
  {
  }

  lemma LaidOutBefore(a: seq<Slice>, b: seq<Slice>, mid: nat, hi: nat)
    requires LaidOut(a, 0, mid) && LaidOut(b, mid, hi)
    ensures Before(a, b)
  {
  }

  lemma PushKeepsRows(ring: seq<Slot>, slot: Slot, used: nat, used': nat)
    requires RowsLaidOut(ring, used) && LaidOut(SlotSlices(slot), used, used') && used <= used'
    ensures RowsLaidOut(ring + [slot], used')
  {
    hide LaidOut, Before, SlotSlices;
    var r := ring + [slot];
    forall i | 0 <= i < |r|
      ensures LaidOut(SlotSlices(r[i]), 0, used')
    {
      if i < |ring| {
        LaidOutWider(SlotSlices(ring[i]), 0, used, 0, used');
      } else {
        LaidOutWider(SlotSlices(slot), used, used', 0, used');
      }
    }
    forall i, j | 0 <= i < j < |r|
      ensures Before(SlotSlices(r[i]), SlotSlices(r[j]))
    {
      if j == |ring| {
        LaidOutBefore(SlotSlices(ring[i]), SlotSlices(slot), used, used');
      }
    }
  }

  lemma PushKeepsMatch(m: Memory, m': Memory, ring: seq<Slot>, log: seq<Event>, slot: Slot, ev: Event)
    requires ValidMemory(m) && ValidMemory(m') && MatchesLog(m, ring, log) && Holds(m', slot, ev)
    requires m.used <= m'.used && m.arena[..m.used] == m'.arena[..m.used]
    ensures MatchesLog(m', ring + [slot], log + [ev])
  {
    forall i | 0 <= i < |ring|
      ensures Holds(m', ring[i], log[|log| - |ring| + i])
    {
      HoldsKept(m, m', ring[i], log[|log| - |ring| + i]);
    }
  }

  lemma PopKeepsQueue(m: Memory, ring: seq<Slot>, log: seq<Event>)
    requires ring != [] && RowsLaidOut(ring, m.used) && MatchesLog(m, ring, log)
    ensures RowsLaidOut(ring[1..], m.used) && MatchesLog(m, ring[1..], log)
  {
  }

  lemma ApplyKeepsQueue(s: State, effect: (Option<Emission>, Memory))
    requires Valid(s) && QueueHolds(s) && GoodEffect(s.mem, effect)
    ensures QueueHolds(Apply(s, effect))
  {
    if effect.0.Some? {
      var e, m' := effect.0.value, effect.1;
      var kept := if |s.ring| >= s.queueSize then s.ring[1..] else s.ring;
      if |s.ring| >= s.queueSize {
        PopKeepsQueue(s.mem, s.ring, s.log);
      }
      PushKeepsRows(kept, e.slot, s.mem.used, m'.used);
      PushKeepsMatch(s.mem, m', kept, s.log, e.slot, e.event);
    }
  }

  lemma NewestOfAppended(log: seq<Event>, ev: Event, kind: Kind)
    ensures Newest(log + [ev], kind) == if KindOf(ev) == kind then Some(ev) else Newest(log, kind)
  {
    assert (log + [ev])[..|log|] == log;
  }

  lemma ApplyKeepsScratch(s: State, effect: (Option<Emission>, Memory))
    requires Valid(s) && ScratchHolds(s) && GoodEffect(s.mem, effect)
    ensures ScratchHolds(Apply(s, effect))
  {
    if effect.0.Some? {
      var ev := effect.0.value.event;
      var r := Apply(s, effect);
      forall k | Newest(r.log, k).Some?
        ensures ScratchHas(r.mem.scratch, Newest(r.log, k).value)
      {
        NewestOfAppended(s.log, ev, k);
        if KindOf(ev) != k {
          assert ScratchHas(s.mem.scratch, Newest(s.log, k).value);
        }
      }
    }
  }

  lemma ApplyKeepsHistory(s: State, effect: (Option<Emission>, Memory))
    requires Valid(s) && ColumnHistory(s.mem.scratch, s.log) && GoodEffect(s.mem, effect)
    ensures ColumnHistory(Apply(s, effect).mem.scratch, Apply(s, effect).log)
  {
    hide ColumnHistory;
    if effect.0.Some? {
      HistoryKept(s.mem.scratch, effect.1.scratch, s.log, effect.0.value.event);
    }
  }

  // ---------- one turn, a whole feed ----------

  lemma FrontendOrder(s: State, tag: byte, body: Bytes)
    requires Valid(s) && InOrder(s) && s.role == Server && s.started
    ensures InOrder(Handle(s, tag, body))
  {
    var r := Handle(s, tag, body);
    var es, es' := s.log[s.epoch..], r.log[r.epoch..];
    var k: nat :| OneStartup(es, k);
    assert es <= es';
    assert OneStartup(es', k);
  }

  lemma BackendOrder(s: State, tag: byte, body: Bytes)
    requires Valid(s) && InOrder(s) && s.role == Client
    ensures InOrder(Handle(s, tag, body))
  {
  }

  lemma StartupOrder(s: State, body: Bytes)
    requires Valid(s) && InOrder(s) && NeedsStartup(s)
    ensures InOrder(HandleStartup(s, body))
  {
    var r := HandleStartup(s, body);
    var es, es' := s.log[s.epoch..], r.log[r.epoch..];
    assert es <= es';
    assert OneStartup(es', |es|);
  }

  lemma BadHeaderOrder(s: State)
    requires Valid(s) && InOrder(s)
    ensures InOrder(HandleBadHeader(s))
  {
    var r := HandleBadHeader(s);
    var es, es' := s.log[s.epoch..], r.log[r.epoch..];
    if s.role == Server && s.started {
      var k: nat :| OneStartup(es, k);
      assert es <= es';
      assert OneStartup(es', k);
    }
  }

  lemma ApplyKeepsInv(s: State, effect: (Option<Emission>, Memory), r: State)
    requires Inv(s) && GoodEffect(s.mem, effect)
    requires r == Apply(s, effect).(input := r.input, started := r.started)
    requires InOrder(Apply(s, effect).(started := r.started))
    ensures Inv(r)
  {
    ApplyKeepsQueue(s, effect);
    ApplyKeepsScratch(s, effect);
    ApplyKeepsHistory(s, effect);
  }

  lemma TurnKeepsInv(s: State)
    requires Inv(s) && !Waits(s)
    ensures Inv(Advance(s))
  {
    hide QueueHolds, ScratchHolds, InOrder, ColumnHistory;
    var r := Advance(s);
    var mlen := Rd32(s.input, if NeedsStartup(s) then 0 else 1);
    if mlen < (if NeedsStartup(s) then 8 else 4) || mlen > s.maxSize {
      BadHeaderOrder(s);
      ApplyKeepsInv(s, (Plainly(ProtocolError), s.mem), r);
    } else if NeedsStartup(s) {
      StartupOrder(s, s.input[4..mlen]);
      ApplyKeepsInv(s, StartupEffect(s.role, s.mem, s.input[4..mlen]), r);
    } else {
      var tag, body := s.input[0], s.input[5..1 + mlen];
      if s.role == Server { FrontendOrder(s, tag, body); } else { BackendOrder(s, tag, body); }
      MessageEffectIsGood(s.role, s.mem, tag, body);
      ApplyKeepsInv(s, MessageEffect(s.role, s.mem, tag, body), r);
    }
  }

  lemma {:induction false} DrainKeepsInv(s: State)
    requires Inv(s)
    ensures Inv(Drain(s))
    decreases |s.input|
  {
    if !Waits(s) {
      TurnKeepsInv(s);
      if |Advance(s).input| < |s.input| {
        DrainKeepsInv(Advance(s));
      }
    }
  }

  /** Also while the loop is on its way, and when it never ends. */
  lemma {:induction false} TurnsKeepInv(s: State, n: nat)
    requires Inv(s)
    ensures Inv(Turns(s, n))
    decreases n
  {
    hide QueueHolds, ScratchHolds, InOrder, ColumnHistory, Advance, Waits;
    if n > 0 && !Waits(s) {
      TurnKeepsInv(s);
      TurnsKeepInv(Advance(s), n - 1);
    }
  }

  // ---------- runs ----------

  datatype Op =
    | FeedOp(data: Bytes)
    | NextOp
    | TakeOp(n: nat)
    | SendOp(data: Bytes)
    | ReadyOp
    | ResetOp

  function Step(s: State, op: Op): (r: State)
    requires Valid(s)
    ensures Valid(r)
  {
    match op
    case FeedOp(data) => Feed(s, data)
    case NextOp => Dequeue(s).1
    case TakeOp(n) => TakeOutput(s, n).1
    case SendOp(data) => Output(s, data)
    case ReadyOp => NoteReady(s)
    case ResetOp => Reset(s)
  }

  function Run(s: State, ops: seq<Op>): (r: State)
    requires Valid(s)
    ensures Valid(r)
    decreases |ops|
  {
    if ops == [] then s else Run(Step(s, ops[0]), ops[1..])
  }

  /** A queue that runs empty has nothing left that points into the arena. */
  lemma DequeueKeepsInv(s: State)
    requires Inv(s)
    ensures Inv(Dequeue(s).1)
  {
    if s.ring != [] {
      PopKeepsQueue(s.mem, s.ring, s.log);
      assert |s.ring| == 1 ==> s.ring[1..] == [];
    }
  }

  lemma ResetKeepsInv(s: State)
    requires Inv(s)
    ensures Inv(Reset(s))
  {
    assert s.log[|s.log|..] == [];
  }

  lemma ReadyKeepsMatch(m: Memory, ring: seq<Slot>, log: seq<Event>)
    requires ValidMemory(m) && MatchesLog(m, ring, log)
    ensures MatchesLog(m.(phase := Ready), ring, log)
  {
    hide Holds;
    forall i | 0 <= i < |ring|
      ensures Holds(m.(phase := Ready), ring[i], log[|log| - |ring| + i])
    {
      HoldsKept(m, m.(phase := Ready), ring[i], log[|log| - |ring| + i]);
    }
  }

  lemma ReadyKeepsInv(s: State)
    requires Inv(s)
    ensures Inv(NoteReady(s))
  {
    hide MatchesLog, RowsLaidOut, ColumnHistory, ScratchHas, OneStartup, OnlyErrors, NoStartup;
    ReadyKeepsMatch(s.mem, s.ring, s.log);
  }

  lemma StepKeepsInv(s: State, op: Op)
    requires Inv(s)
    ensures Inv(Step(s, op))
  {
    match op
    case FeedOp(data) => DrainKeepsInv(Append(s, data));
    case NextOp => DequeueKeepsInv(s);
    case TakeOp(_) =>
    case SendOp(_) =>
    case ReadyOp => ReadyKeepsInv(s);
    case ResetOp => ResetKeepsInv(s);
  }

  lemma {:induction false} RunKeepsInv(s: State, ops: seq<Op>)
    requires Inv(s)
    ensures Inv(Run(s, ops))
    decreases |ops|
  {
    if ops != [] {
      StepKeepsInv(s, ops[0]);
      RunKeepsInv(Step(s, ops[0]), ops[1..]);
    }
  }

  /**
   From creation on, between resets: one StartupMessage at most and only
   protocol errors before it, no phase beyond Ready without it, and a client
   never leaves the first two phases.
   */
  lemma PhasesInOrder(s: State, ops: seq<Op>)
    requires Initial(s)
    ensures var r := Run(s, ops);
            var es := r.log[r.epoch..];
            && (forall i, j :: 0 <= i < j < |es| && es[j].Startup? ==> es[i] == ProtocolError)
            && (r.mem.phase == Authenticating || r.mem.phase == Querying ==>
                  s.role == Server && r.started && exists k :: 0 <= k < |es| && es[k].Startup?)
            && (s.role == Client ==> r.mem.phase == StartupPhase || r.mem.phase == Ready)
  {
    InitialInv(s);
    RunKeepsInv(s, ops);
    var r := Run(s, ops);
    var es := r.log[r.epoch..];
    RunKeepsRole(s, ops);
    if r.role == Server && r.started {
      var k: nat :| OneStartup(es, k);
      assert es[k].Startup?;
    }
  }

  lemma {:induction false} DrainKeepsRole(s: State)
    requires Valid(s)
    ensures Drain(s).role == s.role
    decreases |s.input|
  {
    if !Waits(s) && |Advance(s).input| < |s.input| {
      DrainKeepsRole(Advance(s));
    }
  }

  lemma {:induction false} RunKeepsRole(s: State, ops: seq<Op>)
    requires Valid(s)
    ensures Run(s, ops).role == s.role
    decreases |ops|
  {
    if ops != [] {
      if ops[0].FeedOp? {
        DrainKeepsRole(Append(s, ops[0].data));
      }
      RunKeepsRole(Step(s, ops[0]), ops[1..]);
    }
  }

  // ---------- after a reset ----------

  /**
   Two contexts that agree on everything events depend on; the log of the first
   has older events in front.
   */
  ghost predicate Alike(s: State, t: State, older: seq<Event>) {
    && s.role == t.role && s.queueSize == t.queueSize && s.maxSize == t.maxSize
    && s.input == t.input && s.output == t.output && s.ring == t.ring && s.started == t.started
    && s.mem.phase == t.mem.phase && s.mem.auth == t.mem.auth
    && (s.role == Client ==> s.mem.used == t.mem.used)
    && s.log == older + t.log
  }

  lemma {:induction false} PlaceIgnoresArena(values: seq<Option<Bytes>>, a: Bytes, b: Bytes, used: nat)
    requires |a| == |b| && used <= |a|
    ensures Place(values, a, used).slices == Place(values, b, used).slices
    ensures Place(values, a, used).values == Place(values, b, used).values
    ensures Place(values, a, used).used == Place(values, b, used).used
    decreases |values|
  {
    if values != [] {
      if values[0].Some? && used + |values[0].value| <= |a| {
        var v := values[0].value;
        PlaceIgnoresArena(values[1..], Stored(a, used, v), Stored(b, used, v), used + |v|);
      } else {
        PlaceIgnoresArena(values[1..], a, b, used);
      }
    }
  }

  lemma EffectIgnoresOld(role: Role, m: Memory, m': Memory, tag: byte, body: Bytes)
    requires ValidMemory(m) && ValidMemory(m') && m.phase == m'.phase && m.auth == m'.auth
    requires role == Client ==> m.used == m'.used
    ensures var (e, n) := MessageEffect(role, m, tag, body);
            var (e', n') := MessageEffect(role, m', tag, body);
            e == e' && n.phase == n'.phase && n.auth == n'.auth && (role == Client ==> n.used == n'.used)
  {
    if role == Client && tag == DATA_ROW && |body| >= 2 {
      PlaceIgnoresArena(TakeValues(body[2..], Min(Rd16(body, 0), MAX_ROW_COLUMNS)), m.arena, m'.arena, m.used);
    }
  }

  lemma ApplyAlike(s: State, t: State, older: seq<Event>, e: (Option<Emission>, Memory), e': (Option<Emission>, Memory))
    requires Valid(s) && Valid(t) && Alike(s, t, older) && ValidMemory(e.1) && ValidMemory(e'.1)
    requires e.0 == e'.0 && e.1.phase == e'.1.phase && e.1.auth == e'.1.auth
    requires s.role == Client ==> e.1.used == e'.1.used
    ensures Alike(Apply(s, e), Apply(t, e'), older)
  {
    if e.0.Some? {
      Assoc(older, t.log, [e.0.value.event]);
    }
  }

  lemma TurnAlike(s: State, t: State, older: seq<Event>)
    requires Valid(s) && Valid(t) && Alike(s, t, older)
    ensures Waits(s) == Waits(t)
    ensures !Waits(s) ==> Alike(Advance(s), Advance(t), older)
  {
    hide MessageEffect, ParseStartup, SkipBody;
    if !Waits(s) {
      var mlen := Rd32(s.input, if NeedsStartup(s) then 0 else 1);
      if mlen < (if NeedsStartup(s) then 8 else 4) || mlen > s.maxSize {
        ApplyAlike(s, t, older, (Plainly(ProtocolError), s.mem), (Plainly(ProtocolError), t.mem));
      } else if NeedsStartup(s) {
        ApplyAlike(s, t, older, StartupEffect(s.role, s.mem, s.input[4..mlen]),
                   StartupEffect(t.role, t.mem, s.input[4..mlen]));
      } else {
        var tag, body := s.input[0], s.input[5..1 + mlen];
        EffectIgnoresOld(s.role, s.mem, t.mem, tag, body);
        ApplyAlike(s, t, older, MessageEffect(s.role, s.mem, tag, body), MessageEffect(t.role, t.mem, tag, body));
      }
    }
  }

  lemma {:induction false} DrainAlike(s: State, t: State, older: seq<Event>)
    requires Valid(s) && Valid(t) && Alike(s, t, older)
    ensures Alike(Drain(s), Drain(t), older)
    decreases |s.input|
  {
    hide Advance, Waits;
    TurnAlike(s, t, older);
    if !Waits(s) && |Advance(s).input| < |s.input| {
      DrainAlike(Advance(s), Advance(t), older);
    }
  }

  lemma StepAlike(s: State, t: State, older: seq<Event>, op: Op)
    requires Valid(s) && Valid(t) && Alike(s, t, older)
    ensures Alike(Step(s, op), Step(t, op), older)
  {
    hide Drain;
    if op.FeedOp? {
      DrainAlike(Append(s, op.data), Append(t, op.data), older);
    }
  }

  lemma {:induction false} RunAlike(s: State, t: State, older: seq<Event>, ops: seq<Op>)
    requires Valid(s) && Valid(t) && Alike(s, t, older)
    ensures Alike(Run(s, ops), Run(t, ops), older)
    decreases |ops|
  {
    hide Step, Alike;
    if ops != [] {
      StepAlike(s, t, older, ops[0]);
      RunAlike(Step(s, ops[0]), Step(t, ops[0]), older, ops[1..]);
    }
  }

  /**
   After a reset a context runs like a new one: the same events from there on,
   the same queue, output, phase and buffered bytes. For a client this needs an
   arena that is free, because a reset does not free it.
   */
  lemma ResetIsFresh(s: State, t: State, ops: seq<Op>)
    requires Valid(s) && Initial(t)
    requires s.role == t.role && s.queueSize == t.queueSize && s.maxSize == t.maxSize
    requires s.role == Client ==> s.mem.used == 0
    ensures var r, n := Run(Engine.Reset(s), ops), Run(t, ops);
            && r.log == s.log + n.log && r.ring == n.ring && r.input == n.input && r.output == n.output
            && r.started == n.started && r.mem.phase == n.mem.phase && r.mem.auth == n.mem.auth
  {
    Neutral(s.log);
    RunAlike(Engine.Reset(s), t, s.log, ops);
  }

  // ---------- what a consumer reads ----------

  function SliceValue(m: Memory, slice: Option<Slice>): (r: Option<Bytes>) {
    match slice
    case None => None
    case Some(sl) => if sl.off + sl.len <= |m.arena| then Some(m.arena[sl.off..sl.off + sl.len]) else None
  }

  /** The event as it looks through the pointers of its entry. */
  function Read(m: Memory, slot: Slot): (r: Event) {
    match slot
    case Plain(ev) => ev
    case StartupSlot => Startup(m.scratch.user, m.scratch.database)
    case QuerySlot => Query(m.scratch.sql)
    case TagSlot => CommandComplete(m.scratch.tag)
    case ColumnsSlot(n) => RowDescription(m.scratch.columns[..Min(n, |m.scratch.columns|)])
    case RowSlot(slices) =>
      DataRow(seq(|slices|, i requires 0 <= i < |slices| => SliceValue(m, slices[i])))
  }

  lemma RowReads(m: Memory, slices: seq<Option<Slice>>, values: seq<Option<Bytes>>)
    requires RowHolds(m, slices, values)
    ensures Read(m, RowSlot(slices)) == DataRow(values)
  {
    var read := Read(m, RowSlot(slices)).values;
    forall k | 0 <= k < |slices|
      ensures read[k] == values[k]
    {
      assert ColumnHolds(m, slices[k], values[k]);
    }
  }

  /**
   Every queued event that owns its payload, rows in the arena included, is
   read as it was parsed. A Startup, Query or CommandComplete is read as the
   newest of its kind, so as it was parsed exactly when that is the same.
   */
  lemma QueuedEventIsRead(s: State, i: nat)
    requires Inv(s) && i < |s.ring|
    ensures var ev := s.log[|s.log| - |s.ring| + i];
            var kind := KindOf(ev);
            var read := Read(s.mem, s.ring[i]);
            && KindOf(read) == kind
            && (kind == Unshared ==> read == ev)
            && (kind == StartupKind || kind == QueryKind || kind == TagKind ==>
                  Newest(s.log, kind) == Some(read)
                  && (read == ev <==> Newest(s.log, kind) == Some(ev)))
            && (kind == ColumnsKind && Newest(s.log, kind) == Some(ev) ==> read == ev)
  {
    var j := |s.log| - |s.ring| + i;
    var ev := s.log[j];
    assert Holds(s.mem, s.ring[i], ev);
    NewestExists(s.log, j);
    var newest := Newest(s.log, KindOf(ev)).value;
    assert ScratchHas(s.mem.scratch, newest);
    if s.ring[i].RowSlot? {
      RowReads(s.mem, s.ring[i].slices, ev.values);
    }
  }

  /**
   A queued RowDescription is read as it was parsed exactly when the writes to
   the column area since then left each of its entries as it was.
   */
  lemma QueuedColumnsAreReadIff(s: State, i: nat)
    requires Inv(s) && i < |s.ring| && s.log[|s.log| - |s.ring| + i].RowDescription?
    ensures var j := |s.log| - |s.ring| + i;
            var ev := s.log[j];
            var k := Descriptions(s.log[..j]);
            && k < |s.mem.scratch.writes|
            && var later := s.mem.scratch.writes[k + 1..];
               (Read(s.mem, s.ring[i]) == ev <==>
                forall c :: 0 <= c < |ev.columns| ==> EntryAfter(ev.columns[c], later, c) == ev.columns[c])
  {
    hide *;
    ReadsColumns(s, i);
    var j := |s.log| - |s.ring| + i;
    var sc, ev := s.mem.scratch, s.log[j];
    var later := sc.writes[Descriptions(s.log[..j]) + 1..];
    var read := Read(s.mem, s.ring[i]).columns;
    forall c | 0 <= c < |ev.columns|
      ensures read[c] == EntryAfter(ev.columns[c], later, c)
    {
      ColumnNow(sc, s.log, j, c);
    }
    assert read == ev.columns <==> forall c :: 0 <= c < |ev.columns| ==> read[c] == ev.columns[c];
  }

  lemma ReadsColumns(s: State, i: nat)
    requires Inv(s) && i < |s.ring| && s.log[|s.log| - |s.ring| + i].RowDescription?
    ensures |s.ring| <= |s.log|
    ensures var j := |s.log| - |s.ring| + i;
            var n := |s.log[j].columns|;
            && ColumnHistory(s.mem.scratch, s.log) && WrittenAt(s.mem.scratch, s.log, j)
            && Descriptions(s.log[..j]) < |s.mem.scratch.writes|
            && n <= |s.mem.scratch.columns|
            && Read(s.mem, s.ring[i]) == RowDescription(s.mem.scratch.columns[..n])
  {
    hide ScratchHolds, InOrder, RowsLaidOut, EntryAfter, Descriptions;
    var j := |s.log| - |s.ring| + i;
    assert Holds(s.mem, s.ring[i], s.log[j]) && WrittenAt(s.mem.scratch, s.log, j);
  }

  /** What an entry of the area is now, from a description logged earlier on. */
  lemma ColumnNow(sc: Scratch, log: seq<Event>, j: nat, c: nat)
    requires ColumnHistory(sc, log) && j < |log| && log[j].RowDescription? && WrittenAt(sc, log, j)
    requires c < |log[j].columns| <= |sc.columns|
    ensures sc.columns[c] == EntryAfter(log[j].columns[c], sc.writes[Descriptions(log[..j]) + 1..], c)
  {
    var k := Descriptions(log[..j]);
    var upTo, later := sc.writes[..k + 1], sc.writes[k + 1..];
    assert sc.writes == upTo + later;
    assert sc.columns[c] == EntryAfter(EmptyColumn, sc.writes, c);
    assert EntryAfter(EmptyColumn, upTo, c) == log[j].columns[c] by {
      assert upTo[k] == sc.writes[k];
    }
    hide ColumnHistory, EntryAfter;
    EntryAfterMore(EmptyColumn, upTo, later, c);
  }

  /** Such a one: a shorter description after a longer one leaves a mixture of both. */
  lemma OlderColumnsAreMixed(m: Memory, a: Column, b: Column, c: Column)
    requires ValidMemory(m)
    requires forall x :: x in [a, b, c] ==> |x.name| < MAX_NAME && NulFree(x.name)
    ensures var m1 := RowDescriptionEffect(m, RowDescriptionBody([a, b])).1;
            var m2 := RowDescriptionEffect(m1, RowDescriptionBody([c])).1;
            && Read(m1, ColumnsSlot(2)) == RowDescription([a, b])
            && Read(m2, ColumnsSlot(2)) == RowDescription([c, b])
  {
    hide RowDescriptionEffect, RowDescriptionBody;
    DescriptionIsWritten(m, [a, b]);
    var m1 := RowDescriptionEffect(m, RowDescriptionBody([a, b])).1;
    DescriptionIsWritten(m1, [c]);
    var m2 := RowDescriptionEffect(m1, RowDescriptionBody([c])).1;
    assert m1.scratch.columns[..2] == [a, b];
    assert m2.scratch.columns[..2] == [c, b];
  }

  lemma DescriptionIsWritten(m: Memory, cs: seq<Column>)
    requires ValidMemory(m) && |cs| <= MAX_ROW_COLUMNS
    requires forall j :: 0 <= j < |cs| ==> |cs[j].name| < MAX_NAME && NulFree(cs[j].name)
    ensures RowDescriptionEffect(m, RowDescriptionBody(cs)).1.scratch.columns == cs + m.scratch.columns[|cs|..]
  {
    RdWr16(|cs|, PutColumns(cs));
    TakePutColumns(cs);
  }

  lemma {:induction false} NewestExists(log: seq<Event>, j: nat)
    requires j < |log|
    ensures Newest(log, KindOf(log[j])).Some?
    decreases |log|
  {
    if j < |log| - 1 {
      assert log[..|log| - 1][j] == log[j];
      NewestExists(log[..|log| - 1], j);
    }
  }

  /** Feeding writes only the free part of the arena, whatever frames it meets. */
  lemma {:induction false} FeedKeepsUsedArena(s: State)
    requires Valid(s)
    ensures s.mem.used <= Drain(s).mem.used
    ensures Drain(s).mem.arena[..s.mem.used] == s.mem.arena[..s.mem.used]
    decreases |s.input|
  {
    if !Waits(s) {
      var t := Advance(s);
      TurnKeepsUsedArena(s);
      if |t.input| < |s.input| {
        FeedKeepsUsedArena(t);
        var d := Drain(t);
        assert d.mem.arena[..s.mem.used] == d.mem.arena[..t.mem.used][..s.mem.used];
        assert t.mem.arena[..t.mem.used][..s.mem.used] == t.mem.arena[..s.mem.used];
      }
    }
  }

  lemma TurnKeepsUsedArena(s: State)
    requires Valid(s) && !Waits(s)
    ensures s.mem.used <= Advance(s).mem.used
    ensures Advance(s).mem.arena[..s.mem.used] == s.mem.arena[..s.mem.used]
  {
    if !NeedsStartup(s) && 4 <= Rd32(s.input, 1) <= s.maxSize {
      MessageEffectIsGood(s.role, s.mem, s.input[0], s.input[5..1 + Rd32(s.input, 1)]);
    }
  }

  predicate NoFeeds(ops: seq<Op>) {
    forall i :: 0 <= i < |ops| ==> !ops[i].FeedOp?
  }

  /** No dequeue empties the queue with a feed still to come. */
  predicate HoldsArena(s: State, ops: seq<Op>)
    requires Valid(s)
    decreases |ops|
  {
    NoFeeds(ops)
    || (&& !(ops[0].NextOp? && |s.ring| == 1)
        && HoldsArena(Step(s, ops[0]), ops[1..]))
  }

  lemma StepKeepsArena(s: State, op: Op, n: nat)
    requires Valid(s) && n <= |s.mem.arena| && (op.FeedOp? ==> n <= s.mem.used)
    ensures Step(s, op).mem.arena[..n] == s.mem.arena[..n]
    ensures n <= s.mem.used && !(op.NextOp? && |s.ring| == 1) ==> n <= Step(s, op).mem.used
  {
    if op.FeedOp? {
      FeedKeepsUsedArena(Append(s, op.data));
      SamePrefixSameSlice(s.mem.arena, Step(s, op).mem.arena, s.mem.used, 0, n);
    }
  }

  lemma {:induction false} RunKeepsArena(s: State, ops: seq<Op>, n: nat)
    requires Valid(s) && n <= |s.mem.arena|
    requires NoFeeds(ops) || (n <= s.mem.used && HoldsArena(s, ops))
    ensures Run(s, ops).mem.arena[..n] == s.mem.arena[..n]
    decreases |ops|
  {
    hide Step;
    if ops != [] {
      StepKeepsArena(s, ops[0], n);
      RunKeepsArena(Step(s, ops[0]), ops[1..], n);
    }
  }

  /**
   A dequeued row reads the same after every run without a feed, and after runs
   with feeds too as long as no dequeue has emptied the queue before a feed.
   */
  lemma DequeuedRowStays(s: State, ops: seq<Op>)
    requires Inv(s) && s.ring != [] && s.ring[0].RowSlot?
    requires NoFeeds(ops) || (|s.ring| > 1 && HoldsArena(Dequeue(s).1, ops))
    ensures Read(Run(Dequeue(s).1, ops).mem, s.ring[0]) == Read(s.mem, s.ring[0])
  {
    var t := Dequeue(s).1;
    var r := Run(t, ops);
    var ev := s.log[|s.log| - |s.ring|];
    assert Holds(s.mem, s.ring[0], ev);
    RunKeepsArena(t, ops, s.mem.used);
    RowReads(s.mem, s.ring[0].slices, ev.values);
    SameRow(s.mem, r.mem, s.ring[0].slices, ev.values);
  }

  /** A row depends on nothing but the part of the arena that was used for it. */
  lemma SameRow(m: Memory, m': Memory, slices: seq<Option<Slice>>, values: seq<Option<Bytes>>)
    requires RowHolds(m, slices, values) && m.used <= |m.arena| == |m'.arena|
    requires m'.arena[..m.used] == m.arena[..m.used]
    ensures Read(m', RowSlot(slices)) == DataRow(values)
  {
    var read := Read(m', RowSlot(slices)).values;
    forall k | 0 <= k < |slices|
      ensures read[k] == values[k]
    {
      assert ColumnHolds(m, slices[k], values[k]);
      if slices[k].Some? {
        var sl := slices[k].value;
        SamePrefixSameSlice(m.arena, m'.arena, m.used, sl.off, sl.off + sl.len);
      }
    }
  }

  // ---------- which events are delivered ----------

  datatype Delivery = Delivery(index: nat, read: Event)

  /** The log position of the entry that is next to be dequeued. */
  function Position(s: State): (r: nat)
    requires Valid(s)
  {
    |s.log| - |s.ring|
  }

  /** What the consumer gets over a run, with the log position it came from. */
  function Deliveries(s: State, ops: seq<Op>): (r: seq<Delivery>)
    requires Valid(s)
    decreases |ops|
  {
    if ops == [] then []
    else
      var now := if ops[0].NextOp? && s.ring != [] then [Delivery(Position(s), Read(s.mem, s.ring[0]))] else [];
      now + Deliveries(Step(s, ops[0]), ops[1..])
  }

  /** The log only grows, and the queue is as long as it can be. */
  ghost predicate Grows(s: State, r: State)
    requires Valid(s) && Valid(r)
  {
    && s.log <= r.log && r.queueSize == s.queueSize && Position(s) <= Position(r)
    && |r.ring| == Min(|s.ring| + (|r.log| - |s.log|), s.queueSize)
  }

  lemma TurnGrowsLog(s: State)
    requires Valid(s) && !Waits(s)
    ensures Grows(s, Advance(s))
  {
  }

  lemma GrowsTwice(s: State, t: State, r: State)
    requires Valid(s) && Valid(t) && Valid(r) && Grows(s, t) && Grows(t, r)
    ensures Grows(s, r)
  {
  }

  lemma {:induction false} DrainGrowsLog(s: State)
    requires Valid(s)
    ensures Grows(s, Drain(s))
    decreases |s.input|
  {
    if !Waits(s) {
      TurnGrowsLog(s);
      if |Advance(s).input| < |s.input| {
        DrainGrowsLog(Advance(s));
        GrowsTwice(s, Advance(s), Drain(s));
      }
    }
  }

  lemma StepGrowsLog(s: State, op: Op)
    requires Valid(s)
    ensures s.log <= Step(s, op).log
    ensures Position(s) <= Position(Step(s, op))
    ensures op.NextOp? && s.ring != [] ==> Position(Step(s, op)) == Position(s) + 1
  {
    if op.FeedOp? {
      DrainGrowsLog(Append(s, op.data));
    }
  }

  lemma {:induction false} RunGrowsLog(s: State, ops: seq<Op>)
    requires Valid(s)
    ensures s.log <= Run(s, ops).log
    decreases |ops|
  {
    if ops != [] {
      StepGrowsLog(s, ops[0]);
      RunGrowsLog(Step(s, ops[0]), ops[1..]);
    }
  }

  ghost predicate Increasing(ds: seq<Delivery>, from: nat) {
    && (forall i :: 0 <= i < |ds| ==> from <= ds[i].index)
    && (forall i, j :: 0 <= i < j < |ds| ==> ds[i].index < ds[j].index)
  }

  ghost predicate Delivered(log: seq<Event>, d: Delivery) {
    && d.index < |log|
    && KindOf(d.read) == KindOf(log[d.index])
    && (KindOf(d.read) == Unshared ==> d.read == log[d.index])
  }

  lemma NextIsDelivered(s: State, log: seq<Event>)
    requires Inv(s) && s.ring != [] && s.log <= log
    ensures Delivered(log, Delivery(Position(s), Read(s.mem, s.ring[0])))
  {
    QueuedEventIsRead(s, 0);
    assert log[Position(s)] == s.log[Position(s)];
  }

  /** Deliveries are an in-order subsequence of the log, each at most once. */
  lemma {:induction false} DeliveredInOrder(s: State, ops: seq<Op>)
    requires Inv(s)
    ensures Increasing(Deliveries(s, ops), Position(s))
    ensures forall i :: 0 <= i < |Deliveries(s, ops)| ==> Delivered(Run(s, ops).log, Deliveries(s, ops)[i])
    decreases |ops|
  {
    hide QueueHolds, ScratchHolds, InOrder, ColumnHistory, Step;
    if ops != [] {
      var t := Step(s, ops[0]);
      StepKeepsInv(s, ops[0]);
      StepGrowsLog(s, ops[0]);
      DeliveredInOrder(t, ops[1..]);
      RunGrowsLog(t, ops[1..]);
      if ops[0].NextOp? && s.ring != [] {
        NextIsDelivered(s, Run(s, ops).log);
      }
    }
  }

  /** No feed of the run queues more than there is room for, and no reset finds something queued. */
  predicate NeverLoses(s: State, ops: seq<Op>)
    requires Valid(s)
    decreases |ops|
  {
    ops == [] || (LosesNothing(s, ops[0]) && NeverLoses(Step(s, ops[0]), ops[1..]))
  }

  predicate LosesNothing(s: State, op: Op)
    requires Valid(s)
  {
    && (op.ResetOp? ==> s.ring == [])
    && (op.FeedOp? ==> |s.ring| + |Step(s, op).log| - |s.log| <= s.queueSize)
  }

  /** The position moves by what is delivered and what is lost. */
  lemma StepMoves(s: State, op: Op)
    requires Valid(s)
    ensures var now := if op.NextOp? && s.ring != [] then 1 else 0;
            && Position(Step(s, op)) >= Position(s) + now
            && (Position(Step(s, op)) == Position(s) + now <==> LosesNothing(s, op))
  {
    hide Drain;
    if op.FeedOp? {
      DrainGrowsLog(Append(s, op.data));
    }
  }

  /**
   Every event is delivered or still queued exactly when nothing is lost; the
   delivered ones are then consecutive.
   */
  lemma {:induction false} DeliveredCompletelyIff(s: State, ops: seq<Op>)
    requires Valid(s)
    ensures var ds := Deliveries(s, ops);
            && Position(Run(s, ops)) >= Position(s) + |ds|
            && (Position(Run(s, ops)) == Position(s) + |ds| <==> NeverLoses(s, ops))
            && (NeverLoses(s, ops) ==> forall i :: 0 <= i < |ds| ==> ds[i].index == Position(s) + i)
    decreases |ops|
  {
    hide Step, LosesNothing, Position;
    if ops != [] {
      StepMoves(s, ops[0]);
      DeliveredCompletelyIff(Step(s, ops[0]), ops[1..]);
    }
  }
}
