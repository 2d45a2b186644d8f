/** The protocol context: one object whose buffers, queue and arena are updated in place. */
module Contexts {
  import opened Wire
  import opened Messages
  import opened Parsers
  import opened ParserLoops
  import opened Engine
  import opened Buffers

  const DEFAULT_MAX_SIZE: nat := 16 * 1024 * 1024

  /** Ring indices that have run at most once past the end. */
  function Wrapped(x: nat, n: nat): (r: nat)
    requires x < 2 * n
  {
    if x < n then x else x - n
  }

  lemma NextIsMod(x: nat, n: nat)
    requires x < n
    ensures (x + 1) % n == Wrapped(x + 1, n)
  {
    if x + 1 == n {
      assert n % n == 0;
    }
  }

  /** The queue entries, oldest first. */
  function RingOf(slots: seq<Slot>, head: nat, count: nat): (r: seq<Slot>)
    requires head < |slots| && count <= |slots|
    ensures |r| == count
  {
    if head + count <= |slots| then slots[head..head + count]
    else slots[head..] + slots[..head + count - |slots|]
  }

  lemma RingPop(slots: seq<Slot>, head: nat, count: nat)
    requires head < |slots| && 0 < count <= |slots|
    ensures RingOf(slots, head, count)[0] == slots[head]
    ensures RingOf(slots, Wrapped(head + 1, |slots|), count - 1) == RingOf(slots, head, count)[1..]
  {
  }

  lemma RingPush(slots: seq<Slot>, head: nat, count: nat, slot: Slot)
    requires head < |slots| && count < |slots|
    ensures RingOf(slots[Wrapped(head + count, |slots|) := slot], head, count + 1)
            == RingOf(slots, head, count) + [slot]
  {
  }

  /** The scratch array as the columns are read into it one by one. */
  ghost function Fill(b: Bytes, i: nat, n: nat, cols: seq<Column>): (r: (nat, seq<Column>))
    requires i <= n <= |cols|
    decreases n - i
  {
    if i == n || |b| == 0 then (i, cols)
    else
      match TakeCstr(b)
      case None => (i, cols)
      case Some((name, rest)) =>
        var named := cols[i].(name := Truncated(name, MAX_NAME));
        if |rest| < COLUMN_FIXED then (i, cols[i := named])
        else
          var c := named.(oid := Rd32(rest, 6), format := ToI16(Rd16(rest, 16)));
          Fill(rest[COLUMN_FIXED..], i + 1, n, cols[i := c])
  }

  lemma OverwriteMore(cols: seq<Column>, done: seq<Column>, c: Column, cs: seq<Column>, cut: Option<Bytes>)
    requires |done| + 1 + |cs| <= |cols| && (cut.Some? ==> |done| + 1 + |cs| < |cols|)
    ensures Overwritten(cols[|done| := c], done + [c] + cs, cut) == Overwritten(cols, done + ([c] + cs), cut)
  {
    Assoc(done, [c], cs);
    var all := done + [c] + cs;
    assert cols[|done| := c][|all|..] == cols[|all|..];
  }

  /** A complete column in front is one step of both. */
  lemma FillStep(b: Bytes, i: nat, n: nat, cols: seq<Column>)
    requires i + n <= |cols| && TakeColumns(b, n).0 != []
    ensures n > 0 && TakeCstr(b).Some? && |TakeCstr(b).value.1| >= COLUMN_FIXED
    ensures var c := TakeColumns(b, n).0[0];
            var later := TakeCstr(b).value.1[COLUMN_FIXED..];
            && TakeColumns(b, n) == ([c] + TakeColumns(later, n - 1).0, TakeColumns(later, n - 1).1)
            && Fill(b, i, i + n, cols) == Fill(later, i + 1, i + n, cols[i := c])
  {
  }

  lemma FillEnd(b: Bytes, i: nat, n: nat, cols: seq<Column>)
    requires i + n <= |cols| && TakeColumns(b, n).0 == []
    ensures Fill(b, i, i + n, cols) == (i, Overwritten(cols, cols[..i], TakeColumns(b, n).1))
  {
    assert cols[..i] + cols[i..] == cols;
  }

  lemma {:induction false} FillFrom(b: Bytes, done: seq<Column>, n: nat, cols: seq<Column>)
    requires |done| + n <= |cols| && done <= cols
    ensures var (cs, cut) := TakeColumns(b, n);
            Fill(b, |done|, |done| + n, cols) == (|done| + |cs|, Overwritten(cols, done + cs, cut))
    decreases n
  {
    hide Fill, TakeColumns, Overwritten, TakeCstr;
    var (cs, cut) := TakeColumns(b, n);
    if cs == [] {
      FillEnd(b, |done|, n, cols);
      Neutral(done);
      assert cols[..|done|] == done;
    } else {
      FillStep(b, |done|, n, cols);
      var later := TakeCstr(b).value.1[COLUMN_FIXED..];
      var rest := TakeColumns(later, n - 1).0;
      FillFrom(later, done + [cs[0]], n - 1, cols[|done| := cs[0]]);
      OverwriteMore(cols, done, cs[0], rest, cut);
    }
  }

  lemma FillIsOverwriting(b: Bytes, n: nat, cols: seq<Column>)
    requires n <= |cols|
    ensures var (cs, cut) := TakeColumns(b, n);
            Fill(b, 0, n, cols) == (|cs|, Overwritten(cols, cs, cut))
            && Overwritten(cols, cs, cut)[..|cs|] == cs
  {
    hide Fill, TakeColumns;
    FillFrom(b, [], n, cols);
    Neutral(TakeColumns(b, n).0);
  }

  /** What one turn of the feed loop does: a break leaves nothing to do. */
  ghost predicate Turned(s: State, r: State, more: bool)
    requires Engine.Valid(s)
  {
    if Waits(s) then !more && r == s
    else r == Advance(s) && (!more ==> Waits(r) && |r.input| < |s.input|)
  }

  /** A turn is one of those that are left until the loop ends. */
  lemma TurnedFinishes(s: State, r: State, more: bool, n: nat)
    requires Engine.Valid(s) && Engine.Valid(r) && Turned(s, r, more) && Waits(Turns(s, n))
    ensures if more then n > 0 && Turns(r, n - 1) == Turns(s, n) else r == Turns(s, n)
  {
    hide Advance, Waits;
  }

  class Context {
    const role: Role
    const maxSize: nat

    const events: array<Slot>
    var head: nat
    var tail: nat
    var count: nat

    var outputBuf: array<byte>
    var outputLen: nat

    var inputBuf: array<byte>
    var inputLen: nat

    var userScratch: Bytes
    var dbScratch: Bytes
    var sqlScratch: Bytes
    var tagScratch: Bytes
    const colScratch: array<Column>

    const rowArena: array<byte>
    var rowArenaUsed: nat

    var auth: Auth
    var phase: Phase
    var startupSeen: bool

    // Every event ever queued, and how many of them precede the last reset.
    ghost var log: seq<Event>
    ghost var epoch: nat

    // Every write ever made to the column scratch area.
    ghost var colWrites: seq<ColumnWrite>

    ghost predicate Valid()
      reads this
    {
      && events.Length > 0 && head < events.Length && count <= events.Length
      && tail == Wrapped(head + count, events.Length)
      && outputLen <= outputBuf.Length && inputLen <= inputBuf.Length
      && colScratch.Length == MAX_ROW_COLUMNS
      && rowArenaUsed <= rowArena.Length == ROW_ARENA
      && inputBuf != outputBuf && inputBuf != rowArena && outputBuf != rowArena
      && epoch + count <= |log|
    }

    ghost function Repr(): (r: set<object>)
      reads this
    {
      {this, events, outputBuf, inputBuf, colScratch, rowArena}
    }

    ghost function Ring(): (r: seq<Slot>)
      requires Valid()
      reads this, events
      ensures |r| == count
    {
      RingOf(events[..], head, count)
    }

    ghost function Mem(): (r: Memory)
      requires Valid()
      reads this, colScratch, rowArena
    {
      Memory(Scratch(userScratch, dbScratch, sqlScratch, tagScratch, colScratch[..], colWrites),
             rowArena[..], rowArenaUsed, auth, phase)
    }

    /** The context as a value. */
    ghost function Abs(): (s: State)
      requires Valid()
      reads this, events, outputBuf, inputBuf, colScratch, rowArena
      ensures Engine.Valid(s)
    {
      State(role, events.Length, maxSize, inputBuf[..inputLen], outputBuf[..outputLen],
            Ring(), startupSeen, Mem(), log, epoch)
    }

    constructor (role: Role, queueSize: nat, maxMessageSize: nat)
      requires queueSize > 0
      ensures Valid() && fresh(Repr())
      ensures Initial(Abs())
      ensures Abs().role == role && Abs().queueSize == queueSize
      ensures Abs().maxSize == if maxMessageSize > 0 then maxMessageSize else DEFAULT_MAX_SIZE
    {
      this.role := role;
      maxSize := if maxMessageSize > 0 then maxMessageSize else DEFAULT_MAX_SIZE;
      events := new Slot[queueSize](_ => Plain(Sync));
      head, tail, count := 0, 0, 0;
      outputBuf := new byte[4096](_ => 0);
      outputLen := 0;
      inputBuf := new byte[4096](_ => 0);
      inputLen := 0;
      userScratch, dbScratch, sqlScratch, tagScratch := [], [], [], [];
      colScratch := new Column[MAX_ROW_COLUMNS](_ => EmptyColumn);
      rowArena := new byte[ROW_ARENA](_ => 0);
      rowArenaUsed := 0;
      auth, phase, startupSeen := NotAuthenticated, StartupPhase, false;
      log, epoch, colWrites := [], 0, [];
    }

    // ---------- the queue ----------

    method DropOldest()
      requires Valid() && count > 0
      modifies this`head, this`count
      ensures Valid() && Abs() == old(Abs()).(ring := old(Ring())[1..])
    {
      RingPop(events[..], head, count);
      NextIsMod(head, events.Length);
      head := (head + 1) % events.Length;
      count := count - 1;
    }

    method PushNewest(slot: Slot, ghost ev: Event)
      requires Valid() && count < events.Length
      modifies this`tail, this`count, this`log, events
      ensures Valid() && Abs() == old(Abs()).(ring := old(Ring()) + [slot], log := old(log) + [ev])
    {
      ghost var slots := events[..];
      RingPush(slots, head, count, slot);
      NextIsMod(tail, events.Length);
      events[tail] := slot;
      assert events[..] == slots[tail := slot];
      tail := (tail + 1) % events.Length;
      count := count + 1;
      log := log + [ev];
    }

    method EnqueueEvent(slot: Slot, ghost ev: Event)
      requires Valid()
      modifies this`head, this`tail, this`count, this`log, events
      ensures Valid() && Abs() == Emit(old(Abs()), Emission(slot, ev))
    {
      if count >= events.Length {
        DropOldest();
      }
      PushNewest(slot, ev);
    }

    method DequeueEvent() returns (slot: Option<Slot>)
      requires Valid()
      modifies this`head, this`count, this`rowArenaUsed
      ensures Valid() && (slot, Abs()) == Dequeue(old(Abs()))
    {
      if count == 0 {
        return None;
      }
      RingPop(events[..], head, count);
      slot := Some(events[head]);
      DropOldest();
      if count == 0 {
        // No queued event points into the row arena any more.
        rowArenaUsed := 0;
      }
    }

    method NextEvent() returns (slot: Option<Slot>)
      requires Valid()
      modifies this`head, this`count, this`rowArenaUsed
      ensures Valid() && (slot, Abs()) == Dequeue(old(Abs()))
    {
      slot := DequeueEvent();
    }

    // ---------- lifecycle ----------

    method ClearQueue()
      requires Valid()
      modifies this`head, this`tail, this`count, this`epoch
      ensures Valid() && Abs() == old(Abs()).(ring := [], epoch := |log|)
    {
      head, tail, count := 0, 0, 0;
      epoch := |log|;
      assert Ring() == [];
    }

    method ClearBuffers()
      requires Valid()
      modifies this`outputLen, this`inputLen
      ensures Valid() && Abs() == old(Abs()).(input := [], output := [])
    {
      outputLen := 0;
      inputLen := 0;
    }

    method Reset()
      requires Valid()
      modifies this`head, this`tail, this`count, this`epoch, this`outputLen, this`inputLen
      modifies this`auth, this`phase, this`startupSeen
      ensures Valid() && Abs() == Engine.Reset(old(Abs()))
    {
      ClearQueue();
      ClearBuffers();
      auth := NotAuthenticated;
      phase := StartupPhase;
      startupSeen := false;
    }

    method NoteReady()
      requires Valid()
      modifies this`phase
      ensures Valid() && Abs() == Engine.NoteReady(old(Abs()))
      ensures phase == Ready
    {
      phase := Ready;
    }

    // ---------- messages from the frontend ----------

    method StoreStartup(user: Bytes, database: Bytes)
      requires Valid()
      modifies this`userScratch, this`dbScratch, this`phase, this`startupSeen
      ensures Valid()
      ensures Abs() == old(Abs()).(started := true,
                mem := old(Mem()).(scratch := old(Mem()).scratch.(user := user, database := database),
                                   phase := if role == Server then Authenticating else old(phase)))
    {
      hide RingOf;
      userScratch, dbScratch := user, database;
      phase := if role == Server then Authenticating else phase;
      startupSeen := true;
    }

    method HandleStartup(body: Bytes)
      requires Valid()
      modifies this`userScratch, this`dbScratch, this`phase, this`startupSeen
      modifies this`head, this`tail, this`count, this`log, events
      ensures Valid() && Abs() == Engine.HandleStartup(old(Abs()), body)
    {
      var user, database := ReadStartup(body);
      StoreStartup(user, database);
      EnqueueEvent(StartupSlot, Startup(user, database));
    }

    method ReadCstrOrEmpty(body: Bytes, off: nat) returns (s: Bytes)
      requires off <= |body|
      ensures s == CstrOrEmpty(body[off..])
    {
      var found, _ := ReadCstr(body, off);
      s := match found case None => [] case Some(v) => v;
    }

    method HandleQuery(body: Bytes)
      requires Valid()
      modifies this`sqlScratch, this`phase, this`head, this`tail, this`count, this`log, events
      ensures Valid() && Abs() == Apply(old(Abs()), QueryEffect(old(Mem()), body))
    {
      var sql := ReadCstrOrEmpty(body, 0);
      assert body[0..] == body;
      sqlScratch := Truncated(sql, MAX_QUERY);
      phase := Querying;
      assert Abs() == old(Abs()).(mem := QueryEffect(old(Mem()), body).1);
      EnqueueEvent(QuerySlot, Query(sqlScratch));
    }

    method ReadNamed(body: Bytes) returns (r: Option<(byte, Bytes)>)
      ensures r == ParseNamed(body)
    {
      if |body| < 1 {
        return None;
      }
      var name := ReadCstrOrEmpty(body, 1);
      r := Some((body[0], Truncated(name, MAX_NAME)));
    }

    method ReadExecute(body: Bytes) returns (r: Option<(Bytes, u32)>)
      ensures r == ParseExecute(body)
    {
      assert body[0..] == body;
      var portal, off := ReadCstr(body, 0);
      if portal.None? {
        return None;
      }
      var maxRows := 0;
      if off + 4 <= |body| {
        maxRows := Rd32(body, off);
        assert Rd32(body, off) == Rd32(body[off..], 0);
      }
      r := Some((Truncated(portal.value, MAX_NAME), maxRows));
    }

    method FrontendEvent(tag: byte, body: Bytes) returns (ev: Option<Event>)
      requires tag != QUERY
      ensures FrontendEmission(tag, body) == match ev case None => None case Some(e) => Plainly(e)
    {
      ev := None;
      if tag == PARSE {
        var p := ReadParse(body);
        if p.Some? { ev := Some(ParseEvent(p.value)); }
      } else if tag == BIND {
        var b := ReadBind(body);
        if b.Some? { ev := Some(BindEvent(b.value)); }
      } else if tag == DESCRIBE || tag == CLOSE {
        var d := ReadNamed(body);
        if d.Some? {
          ev := Some(if tag == DESCRIBE then Describe(d.value.0, d.value.1) else Close(d.value.0, d.value.1));
        }
      } else if tag == EXECUTE {
        var e := ReadExecute(body);
        if e.Some? { ev := Some(Execute(e.value.0, e.value.1)); }
      } else if tag == SYNC {
        ev := Some(Sync);
      } else if tag == FLUSH {
        ev := Some(Flush);
      } else if tag == TERMINATE {
        ev := Some(Terminate);
      }
    }

    method HandleFrontend(tag: byte, body: Bytes)
      requires Valid()
      modifies this`sqlScratch, this`phase, this`head, this`tail, this`count, this`log, events
      ensures Valid() && Abs() == Apply(old(Abs()), FrontendEffect(old(Mem()), tag, body))
    {
      if tag == QUERY {
        HandleQuery(body);
      } else {
        var ev := FrontendEvent(tag, body);
        if ev.Some? {
          EnqueueEvent(Plain(ev.value), ev.value);
        }
      }
    }

    // ---------- messages from the backend ----------

    /** One entry; the name goes in first, the rest only when it is complete. */
    method FillOne(body: Bytes, at: nat, i: nat, n: nat) returns (more: bool, next: nat)
      requires Valid() && at < |body| && i < n <= MAX_ROW_COLUMNS
      modifies colScratch
      ensures next <= |body|
      ensures Fill(body[at..], i, n, old(colScratch[..]))
              == if more then Fill(body[next..], i + 1, n, colScratch[..]) else (i, colScratch[..])
    {
      ghost var was := colScratch[..];
      more, next := false, at;
      var name, behind := ReadCstr(body, at);
      if name.None? {
        return;
      }
      ghost var tail := body[behind..];
      colScratch[i] := colScratch[i].(name := Truncated(name.value, MAX_NAME));
      assert colScratch[..] == was[i := colScratch[i]];
      if behind + COLUMN_FIXED > |body| {
        return;
      }
      assert Rd32(body, behind + 6) == Rd32(tail, 6) && Rd16(body, behind + 16) == Rd16(tail, 16);
      colScratch[i] := colScratch[i].(oid := Rd32(body, behind + 6), format := ToI16(Rd16(body, behind + 16)));
      assert colScratch[..] == was[i := colScratch[i]];
      more, next := true, behind + COLUMN_FIXED;
      assert tail[COLUMN_FIXED..] == body[next..];
    }

    /** Columns are read into the scratch array in place. */
    method FillColumns(body: Bytes, off: nat, n: nat) returns (filled: nat)
      requires Valid() && off <= |body| && n <= MAX_ROW_COLUMNS
      modifies colScratch
      ensures (filled, colScratch[..]) == Fill(body[off..], 0, n, old(colScratch[..]))
    {
      var at: nat := off;
      filled := 0;
      while filled < n && at < |body|
        invariant filled <= n && at <= |body|
        invariant Fill(body[off..], 0, n, old(colScratch[..])) == Fill(body[at..], filled, n, colScratch[..])
      {
        var more, next := FillOne(body, at, filled, n);
        if !more {
          return;
        }
        at, filled := next, filled + 1;
      }
    }

    /** Fills the scratch array and notes what was written. */
    method StoreColumns(body: Bytes, n: nat) returns (filled: nat)
      requires Valid() && 2 <= |body| && n <= MAX_ROW_COLUMNS
      modifies colScratch, this`colWrites
      ensures Valid()
      ensures var (cs, cut) := TakeColumns(body[2..], n);
              && filled == |cs| && colScratch[..] == Overwritten(old(colScratch[..]), cs, cut)
              && colScratch[..filled] == cs && colWrites == old(colWrites) + [ColumnWrite(cs, cut)]
    {
      filled := FillColumns(body, 2, n);
      FillIsOverwriting(body[2..], n, old(colScratch[..]));
      ghost var (cs, cut) := TakeColumns(body[2..], n);
      colWrites := colWrites + [ColumnWrite(cs, cut)];
      assert colScratch[..filled] == colScratch[..][..filled];
    }

    method HandleRowDescription(body: Bytes)
      requires Valid()
      modifies colScratch, this`colWrites, this`head, this`tail, this`count, this`log, events
      ensures Valid() && Abs() == Apply(old(Abs()), RowDescriptionEffect(old(Mem()), body))
    {
      if |body| < 2 {
        return;
      }
      var n := Rd16(body, 0);
      if n > MAX_ROW_COLUMNS {
        n := MAX_ROW_COLUMNS;
      }
      var filled := StoreColumns(body, n);
      assert Abs() == old(Abs()).(mem := RowDescriptionEffect(old(Mem()), body).1);
      EnqueueEvent(ColumnsSlot(filled), RowDescription(colScratch[..filled]));
    }

    /** One value: a null column, a value, or the end of the row when it runs past the body. */
    method ReadValue(body: Bytes, at: nat, ghost k: nat) returns (cut: bool, v: Option<Bytes>, next: nat)
      requires at + 4 <= |body|
      ensures next <= |body|
      ensures TakeValues(body[at..], k + 1) == if cut then [] else [v] + TakeValues(body[next..], k)
    {
      ghost var rest := body[at..];
      ghost var tail := body[at + 4..];
      assert Rd32(body, at) == Rd32(rest, 0) && rest[4..] == tail;
      var plen := ToI32(Rd32(body, at));
      cut, v, next := false, None, at + 4;
      if plen >= 0 {
        if next + plen > |body| {
          return true, None, at;
        }
        v := Some(body[next..next + plen]);
        assert tail[..plen] == v.value;
        next := next + plen;
        assert tail[plen..] == body[next..];
      }
    }

    /** Copies a value behind the used part of the arena, or drops it when it does not fit. */
    method StoreValue(v: Option<Bytes>, ghost later: seq<Option<Bytes>>)
      returns (slice: Option<Slice>, ghost kept: Option<Bytes>)
      requires Valid()
      modifies rowArena, this`rowArenaUsed
      ensures Valid()
      ensures var r := Place(later, rowArena[..], rowArenaUsed);
              Place([v] + later, old(rowArena[..]), old(rowArenaUsed))
              == Row([slice] + r.slices, [kept] + r.values, r.arena, r.used)
    {
      slice, kept := None, None;
      assert ([v] + later)[1..] == later;
      if v.Some? && rowArenaUsed + |v.value| <= ROW_ARENA {
        ghost var was := rowArena[..];
        MemCpy(rowArena, rowArenaUsed, v.value);
        assert rowArena[..] == Stored(was, rowArenaUsed, v.value);
        slice, kept := Some(Slice(rowArenaUsed, |v.value|)), v;
        rowArenaUsed := rowArenaUsed + |v.value|;
      }
    }

    /** Reads the values of a row and copies them into the arena one by one. */
    method CopyRow(body: Bytes, off: nat, n: nat) returns (slices: seq<Option<Slice>>, ghost values: seq<Option<Bytes>>)
      requires Valid() && off <= |body|
      modifies rowArena, this`rowArenaUsed
      ensures Valid()
      ensures Row(slices, values, rowArena[..], rowArenaUsed)
              == Place(TakeValues(body[off..], n), old(rowArena[..]), old(rowArenaUsed))
    {
      hide Place, TakeValues;
      slices, values := [], [];
      ghost var later := TakeValues(body[off..], n);
      ghost var row := Place(later, rowArena[..], rowArenaUsed);
      ghost var r := row;
      Neutral(r.slices);
      Neutral(r.values);
      var at: nat := off;
      var i := 0;
      var cut := false;
      while !cut && i < n && at + 4 <= |body|
        invariant i <= n && at <= |body| && Valid()
        invariant later == if cut then [] else TakeValues(body[at..], n - i)
        invariant r == Place(later, rowArena[..], rowArenaUsed)
        invariant row.slices == slices + r.slices && row.values == values + r.values
        invariant row.arena == r.arena && row.used == r.used
        decreases !cut, n - i
      {
        ghost var k := n - i - 1;
        var v, next;
        cut, v, next := ReadValue(body, at, k);
        if cut {
          later := [];
        } else {
          later := TakeValues(body[next..], k);
          var slice;
          ghost var kept;
          slice, kept := StoreValue(v, later);
          r := Place(later, rowArena[..], rowArenaUsed);
          Assoc(slices, [slice], r.slices);
          Assoc(values, [kept], r.values);
          slices, values := slices + [slice], values + [kept];
          at, i := next, i + 1;
          assert k == n - i;
        }
      }
      TakeValuesEnds(body[at..], n - i);
      PlaceNothing(rowArena[..], rowArenaUsed);
      Neutral(slices);
      Neutral(values);
    }

    method HandleDataRow(body: Bytes)
      requires Valid()
      modifies rowArena, this`rowArenaUsed, this`head, this`tail, this`count, this`log, events
      ensures Valid() && Abs() == Apply(old(Abs()), DataRowEffect(old(Mem()), body))
    {
      if |body| < 2 {
        return;
      }
      var n := Rd16(body, 0);
      if n > MAX_ROW_COLUMNS {
        n := MAX_ROW_COLUMNS;
      }
      var slices, values := CopyRow(body, 2, n);
      EnqueueEvent(RowSlot(slices), DataRow(values));
    }

    method HandleCommandComplete(body: Bytes)
      requires Valid()
      modifies this`tagScratch, this`phase, this`head, this`tail, this`count, this`log, events
      ensures Valid() && Abs() == Apply(old(Abs()), CommandCompleteEffect(old(Mem()), body))
    {
      var tag := ReadCstrOrEmpty(body, 0);
      assert body[0..] == body;
      tagScratch := Truncated(tag, MAX_TAG);
      phase := Ready;
      assert Abs() == old(Abs()).(mem := CommandCompleteEffect(old(Mem()), body).1);
      EnqueueEvent(TagSlot, CommandComplete(tagScratch));
    }

    method ReadNotification(body: Bytes) returns (r: Option<(i32, Bytes, Bytes)>)
      ensures r == ParseNotification(body)
    {
      if |body| < 4 {
        return None;
      }
      var channel, off := ReadCstr(body, 4);
      if channel.None? {
        return None;
      }
      var payload := ReadCstrOrEmpty(body, off);
      r := Some((ToI32(Rd32(body, 0)), Truncated(channel.value, MAX_NAME),
                 Truncated(payload, MAX_NOTIFY_PAYLOAD + 1)));
    }

    method BackendEvent(tag: byte, body: Bytes) returns (ev: Option<Event>)
      ensures BackendEmission(tag, body) == match ev case None => None case Some(e) => Plainly(e)
    {
      ev := None;
      if tag == READY_FOR_QUERY {
        ev := Some(ReadyForQuery);
      } else if tag == ERROR_RESPONSE {
        var e := ReadErrorResponse(body);
        ev := Some(e);
      } else if tag == PARSE_COMPLETE {
        ev := Some(ParseComplete);
      } else if tag == BIND_COMPLETE {
        ev := Some(BindComplete);
      } else if tag == CLOSE_COMPLETE {
        ev := Some(CloseComplete);
      } else if tag == NO_DATA {
        ev := Some(NoData);
      } else if tag == PORTAL_SUSPENDED {
        ev := Some(PortalSuspended);
      } else if tag == PARAMETER_STATUS {
        ev := Some(ParameterStatus(body));
      } else if tag == NOTICE_RESPONSE {
        ev := Some(NoticeResponse);
      } else if tag == NOTIFICATION {
        var n := ReadNotification(body);
        if n.Some? { ev := Some(Notification(n.value.0, n.value.1, n.value.2)); }
      }
    }

    method HandleOtherBackend(tag: byte, body: Bytes)
      requires Valid()
      modifies this`phase, this`head, this`tail, this`count, this`log, events
      ensures Valid()
      ensures Abs() == Apply(old(Abs()), (BackendEmission(tag, body),
                         if tag == READY_FOR_QUERY then old(Mem()).(phase := Ready) else old(Mem())))
    {
      var ev := BackendEvent(tag, body);
      if tag == READY_FOR_QUERY {
        NoteReady();
      }
      if ev.Some? {
        EnqueueEvent(Plain(ev.value), ev.value);
      }
    }

    method HandleAuthentication(body: Bytes)
      requires Valid()
      modifies this`auth, this`head, this`tail, this`count, this`log, events
      ensures Valid() && Abs() == Apply(old(Abs()), BackendEffect(old(Mem()), AUTHENTICATION, body))
    {
      if |body| >= 4 && Rd32(body, 0) == 0 {
        auth := AuthDone;
        assert Abs() == old(Abs()).(mem := old(Mem()).(auth := AuthDone));
        EnqueueEvent(Plain(AuthenticationOk), AuthenticationOk);
      }
    }

    method HandleBackend(tag: byte, body: Bytes)
      requires Valid()
      modifies this`auth, this`tagScratch, this`phase, this`rowArenaUsed, colScratch, this`colWrites, rowArena
      modifies this`head, this`tail, this`count, this`log, events
      ensures Valid() && Abs() == Apply(old(Abs()), BackendEffect(old(Mem()), tag, body))
    {
      if tag == AUTHENTICATION {
        HandleAuthentication(body);
      } else if tag == ROW_DESCRIPTION {
        HandleRowDescription(body);
      } else if tag == DATA_ROW {
        HandleDataRow(body);
      } else if tag == COMMAND_COMPLETE {
        HandleCommandComplete(body);
      } else {
        HandleOtherBackend(tag, body);
      }
    }

    method HandleMessage(tag: byte, body: Bytes)
      requires Valid()
      modifies this`auth, this`sqlScratch, this`tagScratch, this`phase, this`rowArenaUsed, colScratch, this`colWrites, rowArena
      modifies this`head, this`tail, this`count, this`log, events
      ensures Valid() && Abs() == Engine.Handle(old(Abs()), tag, body)
    {
      if role == Server {
        HandleFrontend(tag, body);
      } else {
        HandleBackend(tag, body);
      }
    }

    // ---------- input ----------

    /** Room for `n` more bytes; what is buffered moves along. */
    method EnsureInput(n: nat)
      requires Valid()
      modifies this`inputBuf
      ensures Valid() && Abs() == old(Abs())
      ensures inputLen + n <= inputBuf.Length
      ensures inputBuf == old(inputBuf) || fresh(inputBuf)
    {
      if inputLen + n > inputBuf.Length {
        hide RingOf;
        inputBuf := Grown(inputBuf, inputLen, inputLen + n + 1024);
      }
    }

    method AppendInput(data: Bytes)
      requires Valid() && inputLen + |data| <= inputBuf.Length
      modifies this`inputLen, inputBuf
      ensures Valid() && Abs() == Engine.Append(old(Abs()), data)
      ensures inputLen == old(inputLen) + |data|
    {
      MemCpy(inputBuf, inputLen, data);
      inputLen := inputLen + |data|;
    }

    /** Moves the bytes from `from` on to the front of the buffer. */
    method MoveInput(from: nat)
      requires Valid() && from <= inputLen
      modifies inputBuf
      ensures Valid() && inputBuf[..inputLen] == old(inputBuf[from..inputLen] + inputBuf[inputLen - from..inputLen])
    {
      ghost var was := inputBuf[..inputLen];
      forall i | 0 <= i < inputLen - from {
        inputBuf[i] := inputBuf[from + i];
      }
      assert inputBuf[..inputLen] == was[from..] + was[inputLen - from..];
    }

    /** Moves the bytes behind a message to the front, dropping the message. */
    method ShiftInput(from: nat)
      requires Valid() && from <= inputLen
      modifies this`inputLen, inputBuf
      ensures Valid() && Abs() == old(Abs()).(input := old(Abs()).input[from..])
    {
      ghost var was := inputBuf[..inputLen];
      MoveInput(from);
      ghost var now := inputBuf[..inputLen];
      inputLen := inputLen - from;
      assert inputBuf[..inputLen] == now[..inputLen] == was[from..];
    }

    /** The skip behind a bad header: its body is moved over, its length counted in 32 bits. */
    method SkipInput(mlen: u32)
      requires Valid() && 1 + mlen <= inputLen
      modifies this`inputLen, inputBuf
      ensures Valid() && Abs() == old(Abs()).(input := SkipBody(old(Abs()).input, mlen))
    {
      ghost var was := inputBuf[..inputLen];
      MoveInput(1 + mlen);
      ghost var now := inputBuf[..inputLen];
      assert now[..inputLen - Skip32(mlen)] == SkipBody(was, mlen);
      inputLen := inputLen - Skip32(mlen);
      assert inputBuf[..inputLen] == now[..inputLen];
    }

    method InputWord(off: nat) returns (w: u32)
      requires Valid() && off + 4 <= inputLen
      ensures w == Rd32(Abs().input, off)
    {
      w := Rd32(inputBuf[..inputLen], off);
    }

    method InputSlice(lo: nat, hi: nat) returns (b: Bytes)
      requires Valid() && lo <= hi <= inputLen
      ensures b == Abs().input[lo..hi]
    {
      b := inputBuf[lo..hi];
      assert b == inputBuf[..inputLen][lo..hi];
    }

    method DropInput()
      requires Valid()
      modifies this`inputLen
      ensures Valid() && Abs() == old(Abs()).(input := [])
    {
      inputLen := 0;
    }

    /** A StartupMessage whose length is out of range throws the buffer away. */
    method BadStartup()
      requires Valid() && NeedsStartup(Abs()) && inputLen >= 4
      requires Rd32(Abs().input, 0) < 8 || Rd32(Abs().input, 0) > maxSize
      modifies this`head, this`tail, this`count, this`log, events, this`inputLen
      ensures Valid() && Abs() == Advance(old(Abs())) && inputLen == 0
    {
      EnqueueEvent(Plain(ProtocolError), ProtocolError);
      DropInput();
    }

    method GoodStartup(mlen: u32)
      requires Valid() && NeedsStartup(Abs()) && inputLen >= 4
      requires mlen == Rd32(Abs().input, 0) && 8 <= mlen <= maxSize && mlen <= inputLen
      modifies this`userScratch, this`dbScratch, this`phase, this`startupSeen
      modifies this`head, this`tail, this`count, this`log, events, this`inputLen, inputBuf
      ensures Valid() && Abs() == Advance(old(Abs()))
    {
      var body := InputSlice(4, mlen);
      HandleStartup(body);
      ShiftInput(mlen);
    }

    method BadTyped(mlen: u32)
      requires Valid() && !NeedsStartup(Abs()) && 5 <= inputLen
      requires mlen == Rd32(Abs().input, 1) && (mlen < 4 || mlen > maxSize)
      modifies this`head, this`tail, this`count, this`log, events, this`inputLen, inputBuf
      ensures Valid() && Abs() == Advance(old(Abs()))
    {
      EnqueueEvent(Plain(ProtocolError), ProtocolError);
      if mlen > 0 && inputLen >= mlen + 1 {
        SkipInput(mlen);
      } else {
        DropInput();
      }
    }

    method GoodTyped(mlen: u32)
      requires Valid() && !NeedsStartup(Abs()) && inputLen >= 5
      requires mlen == Rd32(Abs().input, 1) && 4 <= mlen <= maxSize && 1 + mlen <= inputLen
      modifies this`auth, this`sqlScratch, this`tagScratch, this`phase, this`rowArenaUsed, colScratch, this`colWrites, rowArena
      modifies this`head, this`tail, this`count, this`log, events, this`inputLen, inputBuf
      ensures Valid() && Abs() == Advance(old(Abs()))
    {
      var body := InputSlice(5, 1 + mlen);
      HandleMessage(inputBuf[0], body);
      ShiftInput(1 + mlen);
    }

    /** The loop body while the server waits for the StartupMessage. */
    method StartupTurn() returns (more: bool)
      requires Valid() && NeedsStartup(Abs())
      modifies this`userScratch, this`dbScratch, this`phase, this`startupSeen
      modifies this`head, this`tail, this`count, this`log, events, this`inputLen, inputBuf
      ensures Valid() && Turned(old(Abs()), Abs(), more)
    {
      if inputLen < 4 {
        return false;
      }
      var mlen := InputWord(0);
      if mlen < 8 || mlen > maxSize {
        BadStartup();
        return false;
      }
      if inputLen < mlen {
        return false;
      }
      GoodStartup(mlen);
      more := true;
    }

    /** The loop body for a typed message. */
    method TypedTurn() returns (more: bool)
      requires Valid() && !NeedsStartup(Abs())
      modifies this`auth, this`sqlScratch, this`tagScratch, this`phase, this`rowArenaUsed, colScratch, this`colWrites, rowArena
      modifies this`head, this`tail, this`count, this`log, events, this`inputLen, inputBuf
      ensures Valid() && Turned(old(Abs()), Abs(), more)
    {
      if inputLen < 5 {
        return false;
      }
      var mlen := InputWord(1);
      if mlen < 4 || mlen > maxSize {
        BadTyped(mlen);
        return true;
      }
      var total := 1 + mlen;
      if inputLen < total {
        return false;
      }
      GoodTyped(mlen);
      more := true;
    }

    method Turn() returns (more: bool)
      requires Valid()
      modifies this`userScratch, this`dbScratch, this`sqlScratch, this`tagScratch, this`auth, this`phase
      modifies this`startupSeen, this`rowArenaUsed, colScratch, this`colWrites, rowArena
      modifies this`head, this`tail, this`count, this`log, events, this`inputLen, inputBuf
      ensures Valid() && Turned(old(Abs()), Abs(), more)
    {
      if role == Server && !startupSeen {
        more := StartupTurn();
      } else {
        more := TypedTurn();
      }
    }

    /** What the code needs to return at all: the loop ends on these bytes. */
    method FeedInput(data: Bytes) returns (n: nat)
      requires Valid() && Halts(Engine.Append(Abs(), data))
      modifies this`userScratch, this`dbScratch, this`sqlScratch, this`tagScratch, this`auth, this`phase
      modifies this`startupSeen, this`rowArenaUsed, colScratch, this`colWrites, rowArena
      modifies this`head, this`tail, this`count, this`log, events, this`inputLen, this`inputBuf, inputBuf
      ensures Valid() && n == |data|
      ensures Abs() == Final(Engine.Append(old(Abs()), data))
      ensures NeverWraps(Engine.Append(old(Abs()), data)) ==> Abs() == Feed(old(Abs()), data)
      ensures inputBuf == old(inputBuf) || fresh(inputBuf)
    {
      ghost var s := Engine.Append(Abs(), data);
      EnsureInput(|data|);
      AppendInput(data);
      n := |data|;
      DrainInput();
      if NeverWraps(s) {
        FinalIsDrain(s);
      }
    }

    method DrainInput()
      requires Valid() && Halts(Abs())
      modifies this`userScratch, this`dbScratch, this`sqlScratch, this`tagScratch, this`auth, this`phase
      modifies this`startupSeen, this`rowArenaUsed, colScratch, this`colWrites, rowArena
      modifies this`head, this`tail, this`count, this`log, events, this`inputLen, inputBuf
      ensures Valid() && Abs() == Final(old(Abs()))
    {
      ghost var left: nat :| Waits(Turns(Abs(), left));
      FinalIsTurns(Abs(), left);
      hide Advance, Waits, Turned, Turns, Halts, Final;
      var more := true;
      while more
        invariant Valid()
        invariant if more then Waits(Turns(Abs(), left)) && Turns(Abs(), left) == Final(old(Abs()))
                  else Abs() == Final(old(Abs()))
        decreases more, left
      {
        ghost var s := Abs();
        more := Turn();
        TurnedFinishes(s, Abs(), more, left);
        left := if more then left - 1 else left;
      }
    }

    // ---------- output ----------

    /** A full buffer is doubled and then some. */
    method EnsureOutput(n: nat)
      requires Valid()
      modifies this`outputBuf
      ensures Valid() && Abs() == old(Abs())
      ensures outputLen + n <= outputBuf.Length
      ensures outputBuf == old(outputBuf) || fresh(outputBuf)
    {
      if outputLen + n > outputBuf.Length {
        hide RingOf;
        outputBuf := Grown(outputBuf, outputLen, outputBuf.Length * 2 + n + 1024);
      }
    }

    method AppendOutput(data: Bytes)
      requires Valid()
      modifies this`outputBuf, this`outputLen, outputBuf
      ensures Valid() && Abs() == Output(old(Abs()), data)
      ensures outputBuf == old(outputBuf) || fresh(outputBuf)
    {
      EnsureOutput(|data|);
      MemCpy(outputBuf, outputLen, data);
      outputLen := outputLen + |data|;
    }

    method EmitMsg(tag: byte, payload: Bytes)
      requires Valid()
      modifies this`outputBuf, this`outputLen, outputBuf
      ensures Valid() && Abs() == Output(old(Abs()), Frame(tag, payload))
      ensures outputBuf == old(outputBuf) || fresh(outputBuf)
    {
      var hdr := [tag] + Wr32((|payload| + 4) % TWO_TO_THE_32);
      ghost var out := Abs().output;
      AppendOutput(hdr);
      Assoc(out, hdr, payload);
      if |payload| > 0 {
        AppendOutput(payload);
      } else {
        Neutral(out + hdr);
      }
    }

    method GetOutput(buf: array<byte>, maxLen: nat) returns (n: nat)
      requires Valid() && maxLen <= buf.Length && buf !in Repr()
      modifies this`outputLen, outputBuf, buf
      ensures Valid() && n <= maxLen
      ensures (buf[..n], Abs()) == TakeOutput(old(Abs()), maxLen)
      ensures buf[n..] == old(buf[n..])
    {
      n := if outputLen < maxLen then outputLen else maxLen;
      MemCpy(buf, 0, outputBuf[..n]);
      assert buf[..n] == outputBuf[..n] == Abs().output[..n];
      ShiftOutput(n);
    }

    method ShiftOutput(from: nat)
      requires Valid() && from <= outputLen
      modifies this`outputLen, outputBuf
      ensures Valid() && Abs() == old(Abs()).(output := old(Abs()).output[from..])
    {
      ghost var was := outputBuf[..outputLen];
      forall i | 0 <= i < outputLen - from {
        outputBuf[i] := outputBuf[from + i];
      }
      outputLen := outputLen - from;
      assert outputBuf[..outputLen] == was[from..];
    }
  }
}
