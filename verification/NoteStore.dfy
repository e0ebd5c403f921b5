/** sqlite_store.go, notes only: every version of a note is kept with the time it was valid. */
module NoteStore {
  import opened Transducer

  /** A row of the notes table, and the note handed in; content stands for all that is only carried along. */
  datatype Note<C> = Note(id: string, version: int, content: C, createdAt: int, updatedAt: int, validFrom: int,
    validTo: Option<int>, isCurrent: bool, changeReason: string)

  type Table<C> = map<(string, int), Note<C>>

  /** What happened to a note: some content, from a time on. */
  datatype Event<C> = Event(content: C, time: int)

  /** The last event up to a time. */
  function Replay<C>(events: seq<Event<C>>, t: int): Option<nat> {
    if events == [] then None
    else if events[|events| - 1].time <= t then Some(|events| - 1)
    else Replay(events[..|events| - 1], t)
  }

  lemma {:induction false} ReplayIsLast<C>(events: seq<Event<C>>, t: int)
    ensures match Replay(events, t)
      case None => forall k :: 0 <= k < |events| ==> events[k].time > t
      case Some(n) => n < |events| && events[n].time <= t && forall k :: n < k < |events| ==> events[k].time > t
  {
    if events != [] { ReplayIsLast(events[..|events| - 1], t); }
  }

  /**
   * The rows of one note are its events under consecutive versions: only the last is current and open,
   * and every other one ends when the next begins.
   */
  ghost predicate History<C(!new)>(rows: Table<C>, id: string, base: int, events: seq<Event<C>>) {
    && (forall v: int :: (id, v) in rows <==> base <= v < base + |events|)
    && (forall v: int :: (id, v) in rows ==> Tells(rows[(id, v)], events, v - base))
  }

  ghost predicate Tells<C>(row: Note<C>, events: seq<Event<C>>, k: int)
    requires 0 <= k < |events|
  {
    && row.content == events[k].content && row.validFrom == events[k].time
    && (row.isCurrent <==> k == |events| - 1)
    && row.validTo == if k == |events| - 1 then None else Some(events[k + 1].time)
  }

  /** Whether the row was valid at a time. */
  predicate ValidAt<C>(row: Note<C>, t: int) {
    row.validFrom <= t && (row.validTo == None || row.validTo.value > t)
  }

  /** Version v and no other was valid at a time. */
  ghost predicate OnlyValid<C(!new)>(rows: Table<C>, id: string, v: int, t: int) {
    forall w: int :: (id, w) in rows ==> (ValidAt(rows[(id, w)], t) <==> w == v)
  }

  /** One row was valid at a time. */
  ghost predicate OneValid<C(!new)>(rows: Table<C>, id: string, t: int) {
    exists v: int :: (id, v) in rows && OnlyValid(rows, id, v, t)
  }

  /** From the first event on exactly one row is valid at any time, and none before. */
  ghost predicate Tiling<C(!new)>(rows: Table<C>, id: string, first: int) {
    && (forall t: int, v: int :: t < first && (id, v) in rows ==> !ValidAt(rows[(id, v)], t))
    && (forall t: int :: t >= first ==> OneValid(rows, id, t))
  }

  ghost predicate InTimeOrder<C>(events: seq<Event<C>>) {
    forall j, k :: 0 <= j < k < |events| ==> events[j].time <= events[k].time
  }

  /** The row of the last event up to a time is valid then. */
  lemma LastIsValid<C(!new)>(rows: Table<C>, id: string, base: int, events: seq<Event<C>>, t: int)
    requires History(rows, id, base, events) && Replay(events, t).Some?
    ensures var n := Replay(events, t).value;
      n < |events| && (id, base + n) in rows && ValidAt(rows[(id, base + n)], t)
  {
    ReplayIsLast(events, t);
    var n := Replay(events, t).value;
    assert (id, base + n) in rows && Tells(rows[(id, base + n)], events, n);
  }

  lemma TilesInOrder<C(!new)>(rows: Table<C>, id: string, base: int, events: seq<Event<C>>)
    requires History(rows, id, base, events) && events != [] && InTimeOrder(events)
    ensures Tiling(rows, id, events[0].time)
  {
    forall t: int, v: int | t < events[0].time && (id, v) in rows ensures !ValidAt(rows[(id, v)], t) {
      assert Tells(rows[(id, v)], events, v - base);
    }
    forall t: int | t >= events[0].time ensures OneValid(rows, id, t) {
      ReplayIsLast(events, t);
      var n := Replay(events, t).value;
      assert (id, base + n) in rows && OnlyValid(rows, id, base + n, t);
    }
  }

  /** Times out of order descend somewhere from one event to the next. */
  lemma {:induction false} Descent<C>(events: seq<Event<C>>) returns (j: nat)
    requires !InTimeOrder(events)
    ensures j + 1 < |events| && events[j].time > events[j + 1].time
  {
    var n := |events| - 1;
    if !InTimeOrder(events[..n]) {
      j := Descent(events[..n]);
    } else {
      j := n - 1;
    }
  }

  /** Where times descend, some row is valid too early or two are valid at once. */
  lemma TilesOutOfOrder<C(!new)>(rows: Table<C>, id: string, base: int, events: seq<Event<C>>)
    requires History(rows, id, base, events) && events != [] && !InTimeOrder(events)
    ensures !Tiling(rows, id, events[0].time)
  {
    var j := Descent(events);
    var t, front := events[j + 1].time, events[..j + 1];
    ReplayIsLast(events, t);
    LastIsValid(rows, id, base, events, t);
    var n := Replay(events, t).value;
    if t >= events[0].time {
      ReplayIsLast(front, t);
      assert front[0] == events[0] && front[j] == events[j];
      var m := Replay(front, t).value;
      assert events[m] == front[m] && events[m + 1] == front[m + 1];
      assert (id, base + m) in rows && Tells(rows[(id, base + m)], events, m);
      assert ValidAt(rows[(id, base + m)], t) && ValidAt(rows[(id, base + n)], t) && m < n;
      assert !OneValid(rows, id, t);
    }
  }

  /** The intervals of validity tile if and only if the times of the events do not descend. */
  lemma Tiles<C(!new)>(rows: Table<C>, id: string, base: int, events: seq<Event<C>>)
    requires History(rows, id, base, events) && events != []
    ensures Tiling(rows, id, events[0].time) <==> InTimeOrder(events)
  {
    if InTimeOrder(events) { TilesInOrder(rows, id, base, events); } else { TilesOutOfOrder(rows, id, base, events); }
  }

  /** Exactly one row of a note is current, and it has the highest version. */
  lemma OneCurrent<C(!new)>(rows: Table<C>, id: string, base: int, events: seq<Event<C>>)
    requires History(rows, id, base, events) && events != []
    ensures forall v :: (id, v) in rows ==> (rows[(id, v)].isCurrent <==> v == base + |events| - 1)
    ensures forall v :: (id, v) in rows ==> v <= base + |events| - 1
  {
    forall v | (id, v) in rows ensures rows[(id, v)].isCurrent <==> v == base + |events| - 1 {
      assert Tells(rows[(id, v)], events, v - base);
    }
  }

  /** The row a query for a time picks: the valid one of the highest version. */
  ghost predicate Picked<C(!new)>(rows: Table<C>, id: string, t: int, r: Option<(int, Note<C>)>) {
    match r
    case None => forall v: int :: (id, v) in rows ==> !ValidAt(rows[(id, v)], t)
    case Some(p) =>
      && (id, p.0) in rows && rows[(id, p.0)] == p.1 && ValidAt(p.1, t)
      && forall v: int :: (id, v) in rows && ValidAt(rows[(id, v)], t) ==> v <= p.0
  }

  /** It is what replaying the events up to that time makes current, in whatever order their times are. */
  lemma TimeTravel<C(!new)>(rows: Table<C>, id: string, base: int, events: seq<Event<C>>, t: int,
    r: Option<(int, Note<C>)>)
    requires History(rows, id, base, events) && Picked(rows, id, t, r)
    ensures r.None? <==> Replay(events, t).None?
    ensures r.Some? ==> r.value.0 == base + Replay(events, t).value
    ensures r.Some? ==> Replay(events, t).value < |events| && Tells(r.value.1, events, Replay(events, t).value)
  {
    ReplayIsLast(events, t);
    if Replay(events, t).Some? {
      var v := base + Replay(events, t).value;
      assert (id, v) in rows && Tells(rows[(id, v)], events, v - base);
      assert ValidAt(rows[(id, v)], t);
    }
  }

  /** One row more for a note; every other keeps all but whether it is current and until when it was valid. */
  ghost predicate Versioned<C(!new)>(before: Table<C>, after: Table<C>, id: string, row: Note<C>) {
    && after.Keys == before.Keys + {(id, row.version)} && (id, row.version) !in before
    && after[(id, row.version)] == row
    && forall k :: k in before ==>
      after[k] == before[k].(validTo := after[k].validTo, isCurrent := after[k].isCurrent)
      && (k.0 != id ==> after[k] == before[k])
  }

  class NotesStore<C(!new)> {
    var rows: Table<C>
    /** The events of every note, and the version of its first. */
    ghost var log: map<string, seq<Event<C>>>
    ghost var base: map<string, int>

    ghost function Events(id: string): seq<Event<C>>
      reads this
    {
      if id in log then log[id] else []
    }

    ghost function Base(id: string): int
      reads this
    {
      if id in base then base[id] else 0
    }

    ghost predicate Valid()
      reads this
    {
      forall id: string :: History(rows, id, Base(id), Events(id))
    }

    constructor ()
      ensures Valid() && rows == map[] && log == map[]
    {
      rows, log, base := map[], map[], map[];
    }

    /** The version and note of the current row, if there is one. */
    method Current(id: string) returns (r: Option<(int, Note<C>)>)
      ensures r.Some? ==> (id, r.value.0) in rows && rows[(id, r.value.0)] == r.value.1 && r.value.1.isCurrent
      ensures r == None ==> forall v: int :: (id, v) in rows ==> !rows[(id, v)].isCurrent
    {
      var rest := rows.Keys;
      while rest != {}
        invariant rest <= rows.Keys
        invariant forall v: int :: (id, v) in rows && rows[(id, v)].isCurrent ==> (id, v) in rest
        decreases |rest|
      {
        var k :| k in rest;
        if k.0 == id && rows[k].isCurrent {
          return Some((k.1, rows[k]));
        }
        rest := rest - {k};
      }
      return None;
    }

    /** What a note handed in becomes the first version of. */
    function FirstRow(note: Note<C>): (row: Note<C>)
      ensures note.version != 0 && note.validFrom != 0 && note.isCurrent ==> row == note
      ensures row.version != 0 && row.isCurrent && row.content == note.content && row.createdAt == note.createdAt
    {
      note.(version := if note.version == 0 then 1 else note.version,
            validFrom := if note.validFrom == 0 then note.createdAt else note.validFrom,
            isCurrent := true)
    }

    /** `CreateNote`: the first version of a note that has none; a history, unless it is handed in as ended. */
    method CreateNote(note: Note<C>)
      modifies this
      ensures rows == old(rows)[(note.id, FirstRow(note).version) := FirstRow(note)]
      ensures log == old(log)[note.id := [Event(note.content, FirstRow(note).validFrom)]]
      ensures base == old(base)[note.id := FirstRow(note).version]
      ensures old(Valid()) && old(Events(note.id)) == [] ==>
        (Valid() <==> note.validTo == None) && (HasHistory(rows, note.id) <==> note.validTo == None)
    {
      ghost var were := rows;
      var row := FirstRow(note);
      rows := rows[(row.id, row.version) := row];
      log := log[note.id := [Event(note.content, row.validFrom)]];
      base := base[note.id := row.version];
      if old(Valid()) && old(Events(note.id)) == [] {
        assert History(were, note.id, old(Base(note.id)), []);
        FirstMeans(were, row);
        assert Events(note.id) == [Event(note.content, row.validFrom)] && Base(note.id) == row.version;
        forall id: string | id != note.id ensures History(rows, id, Base(id), Events(id)) {
          assert History(were, id, old(Base(id)), old(Events(id)));
          OtherRow(were, id, Base(id), Events(id), (note.id, row.version), row);
        }
        assert Valid() <==> History(rows, note.id, Base(note.id), Events(note.id));
      }
    }

    /** `UpdateNote`: closes the current version and adds the next, or creates the note. */
    method UpdateNote(note: Note<C>, reason: string)
      requires Valid()
      modifies this
      ensures Valid() <==> old(Events(note.id)) != [] || note.validTo == None
      ensures old(Events(note.id)) != [] ==> base == old(base)
      ensures log == old(log)[note.id := old(Events(note.id))
        + [Event(note.content, if old(Events(note.id)) == [] then FirstRow(note).validFrom else note.updatedAt)]]
      ensures old(Events(note.id)) == [] ==> rows == old(rows)[(note.id, FirstRow(note).version) := FirstRow(note)]
      ensures forall v: int :: (note.id, v) in old(rows) && old(rows)[(note.id, v)].isCurrent ==>
        Versioned(old(rows), rows, note.id, note.(version := v + 1, createdAt := old(rows)[(note.id, v)].createdAt,
          validFrom := note.updatedAt, validTo := None, isCurrent := true, changeReason := reason))
    {
      hide NotesStore.Valid, History;
      CurrentMeans(note.id);
      var current := Current(note.id);
      if current == None {
        ghost var first := [Event(note.content, FirstRow(note).validFrom)];
        assert [] + first == first;
        CreateNote(note);
        return;
      }
      var row := note.(version := current.value.0 + 1, createdAt := current.value.1.createdAt,
        validFrom := note.updatedAt, validTo := None, isCurrent := true, changeReason := reason);
      AddVersion(note.id, note.updatedAt, row, Event(note.content, note.updatedAt));
    }

    /** Closes the current row and inserts one above it. */
    method AddVersion(id: string, now: int, row: Note<C>, ghost e: Event<C>)
      requires Valid() && Events(id) != [] && row.version == Base(id) + |Events(id)|
      requires Opens(row, e) && e.time == now
      modifies this
      ensures Versioned(old(rows), rows, id, row)
      ensures Valid() && log == old(log)[id := old(Events(id)) + [e]] && base == old(base)
    {
      hide History, CurrentClosed;
      ghost var were, events, start := rows, Events(id), Base(id);
      rows := CurrentClosed(rows, id, now);
      rows := rows[(id, row.version) := row];
      log := log[id := events + [e]];
      assert History(were, id, start, events);
      VersionAdded(were, id, start, events, row, e);
      VersionedBy(were, id, start, events, row, now);
      forall other: string | other != id ensures History(rows, other, Base(other), Events(other)) {
        assert History(were, other, old(Base(other)), old(Events(other)));
        OthersKept(were, id, now, row, other, Base(other), Events(other));
      }
    }

    /** What the current row says about the history. */
    lemma CurrentMeans(id: string)
      requires Valid()
      ensures Events(id) == [] ==> forall v: int :: (id, v) !in rows
      ensures Events(id) != [] ==> forall v: int :: (id, v) in rows ==>
        v < Base(id) + |Events(id)| && (rows[(id, v)].isCurrent <==> v == Base(id) + |Events(id)| - 1)
      ensures Events(id) != [] ==> (id, Base(id) + |Events(id)| - 1) in rows
    {
      assert History(rows, id, Base(id), Events(id));
      if Events(id) != [] { OneCurrent(rows, id, Base(id), Events(id)); }
    }

    method UpsertNote(note: Note<C>)
      requires Valid()
      modifies this
      ensures Valid() <==> old(Events(note.id)) != [] || note.validTo == None
      ensures old(Events(note.id)) != [] ==> base == old(base)
      ensures log == old(log)[note.id := old(Events(note.id))
        + [Event(note.content, if old(Events(note.id)) == [] then FirstRow(note).validFrom else note.updatedAt)]]
      ensures old(Events(note.id)) == [] ==> rows == old(rows)[(note.id, FirstRow(note).version) := FirstRow(note)]
      ensures forall v: int :: (note.id, v) in old(rows) && old(rows)[(note.id, v)].isCurrent ==>
        Versioned(old(rows), rows, note.id, note.(version := v + 1, createdAt := old(rows)[(note.id, v)].createdAt,
          validFrom := note.updatedAt, validTo := None, isCurrent := true, changeReason := "upsert"))
    {
      hide NotesStore.Valid, History;
      CurrentMeans(note.id);
      var exists' := Current(note.id);
      if exists' == None {
        ghost var first := [Event(note.content, FirstRow(note).validFrom)];
        assert [] + first == first;
        CreateNote(note);
        return;
      }
      UpdateNote(note, "upsert");
    }

    /** The highest version of a note. */
    method MaxVersion(id: string) returns (r: Option<int>)
      ensures r == None ==> forall v: int :: (id, v) !in rows
      ensures r.Some? ==> (id, r.value) in rows && forall v: int :: (id, v) in rows ==> v <= r.value
    {
      r := None;
      var rest := rows.Keys;
      while rest != {}
        invariant rest <= rows.Keys && (r.Some? ==> (id, r.value) in rows)
        invariant forall v: int :: (id, v) in rows && (id, v) !in rest ==> r.Some? && v <= r.value
        decreases |rest|
      {
        var k :| k in rest;
        if k.0 == id && (r == None || k.1 > r.value) {
          r := Some(k.1);
        }
        rest := rest - {k};
      }
    }

    /** `RestoreNoteVersion`: the content of an earlier version again, as the newest; false without that version. */
    method RestoreNoteVersion(id: string, version: int, now: int) returns (ok: bool)
      requires Valid()
      modifies this
      ensures Valid() && (ok <==> (id, version) in old(rows))
      ensures !ok ==> unchanged(this)
      ensures ok ==> Base(id) == old(Base(id)) && 0 <= version - Base(id) < |old(Events(id))|
      ensures ok ==>
        log == old(log)[id := old(Events(id)) + [Event(old(Events(id))[version - old(Base(id))].content, now)]]
      ensures ok ==> Versioned(old(rows), rows, id, old(rows)[(id, version)].(
        version := old(Base(id)) + |old(Events(id))|, updatedAt := now, validFrom := now, validTo := None,
        isCurrent := true, changeReason := "restore"))
    {
      hide NotesStore.Valid, History;
      if (id, version) !in rows {
        return false;
      }
      var oldNote := rows[(id, version)];
      CurrentMeans(id);
      VersionMeans(id, version);
      var maxVersion := MaxVersion(id);
      var row := oldNote.(version := maxVersion.value + 1, updatedAt := now, validFrom := now, validTo := None,
        isCurrent := true, changeReason := "restore");
      AddVersion(id, now, row, Event(oldNote.content, now));
      return true;
    }

    lemma VersionMeans(id: string, version: int)
      requires Valid() && (id, version) in rows
      ensures 0 <= version - Base(id) < |Events(id)|
      ensures rows[(id, version)].content == Events(id)[version - Base(id)].content
    {
      assert History(rows, id, Base(id), Events(id));
      assert Tells(rows[(id, version)], Events(id), version - Base(id));
    }

    /** `GetNoteAtTime`: what replaying the history up to that time makes current. */
    method GetNoteAtTime(id: string, timestamp: int) returns (r: Option<Note<C>>)
      requires Valid()
      ensures r.None? <==> Replay(Events(id), timestamp).None?
      ensures r.Some? ==> Replay(Events(id), timestamp).value < |Events(id)|
      ensures r.Some? ==> Tells(r.value, Events(id), Replay(Events(id), timestamp).value)
      ensures r.Some? ==> exists v: int :: (id, v) in rows && rows[(id, v)] == r.value
    {
      hide NotesStore.Valid, History;
      var best: Option<(int, Note<C>)> := None;
      var rest := rows.Keys;
      while rest != {}
        invariant rest <= rows.Keys
        invariant best.Some? ==> (id, best.value.0) in rows && rows[(id, best.value.0)] == best.value.1
        invariant best.Some? ==> ValidAt(best.value.1, timestamp)
        invariant forall v: int :: (id, v) in rows && (id, v) !in rest && ValidAt(rows[(id, v)], timestamp) ==>
          best.Some? && v <= best.value.0
        decreases |rest|
      {
        var k :| k in rest;
        if k.0 == id && ValidAt(rows[k], timestamp) && (best == None || k.1 > best.value.0) {
          best := Some((k.1, rows[k]));
        }
        rest := rest - {k};
      }
      Recorded(id);
      TimeTravel(rows, id, Base(id), Events(id), timestamp, best);
      return if best == None then None else Some(best.value.1);
    }

    lemma Recorded(id: string)
      requires Valid()
      ensures History(rows, id, Base(id), Events(id))
    {
    }

    method DeleteNote(id: string)
      requires Valid()
      modifies this
      ensures Valid() && log == old(log) - {id}
      ensures rows == map k | k in old(rows) && k.0 != id :: old(rows)[k]
    {
      ghost var were := rows;
      rows := map k | k in rows && k.0 != id :: rows[k];
      log := log - {id};
      forall other: string ensures History(rows, other, Base(other), Events(other)) {
        assert History(were, other, old(Base(other)), old(Events(other)));
      }
    }
  }

  /** The only row of a note is a history exactly when it has no end. */
  lemma FirstMeans<C(!new)>(rows: Table<C>, row: Note<C>)
    requires row.isCurrent && forall v: int :: (row.id, v) !in rows
    ensures var after := rows[(row.id, row.version) := row];
      && (HasHistory(after, row.id) <==> row.validTo == None)
      && (row.validTo == None <==> History(after, row.id, row.version, [Event(row.content, row.validFrom)]))
  {
    var after, es := rows[(row.id, row.version) := row], [Event(row.content, row.validFrom)];
    forall b: int, fs: seq<Event<C>> | History(after, row.id, b, fs) ensures row.validTo == None {
      assert (row.id, row.version) in after && Tells(after[(row.id, row.version)], fs, row.version - b);
    }
    if row.validTo == None {
      assert History(after, row.id, row.version, es);
    }
  }

  /** The row an event is recorded in while it is the latest. */
  predicate Opens<C(==)>(row: Note<C>, e: Event<C>) {
    row.content == e.content && row.validFrom == e.time && row.validTo == None && row.isCurrent
  }

  /** The update that closes the current row of a note. */
  function CurrentClosed<C>(rows: Table<C>, id: string, now: int): Table<C> {
    map k | k in rows :: if k.0 == id && rows[k].isCurrent then rows[k].(validTo := Some(now), isCurrent := false)
      else rows[k]
  }

  lemma VersionAdded<C(!new)>(rows: Table<C>, id: string, base: int, events: seq<Event<C>>, row: Note<C>, e: Event<C>)
    requires History(rows, id, base, events) && events != [] && row.version == base + |events| && Opens(row, e)
    ensures History(CurrentClosed(rows, id, e.time)[(id, row.version) := row], id, base, events + [e])
  {
    var after, more := CurrentClosed(rows, id, e.time)[(id, row.version) := row], events + [e];
    forall v: int | (id, v) in after ensures 0 <= v - base < |more| && Tells(after[(id, v)], more, v - base) {
      if v != row.version { assert (id, v) in rows && Tells(rows[(id, v)], events, v - base); }
    }
  }

  lemma VersionedBy<C(!new)>(rows: Table<C>, id: string, base: int, events: seq<Event<C>>, row: Note<C>, now: int)
    requires History(rows, id, base, events) && row.version == base + |events|
    ensures Versioned(rows, CurrentClosed(rows, id, now)[(id, row.version) := row], id, row)
  {
    var after := CurrentClosed(rows, id, now)[(id, row.version) := row];
    assert (id, row.version) !in rows;
    forall k | k in rows ensures after[k] == rows[k].(validTo := after[k].validTo, isCurrent := after[k].isCurrent) {
      assert k != (id, row.version);
    }
  }

  lemma OtherRow<C(!new)>(rows: Table<C>, id: string, base: int, events: seq<Event<C>>, key: (string, int),
    row: Note<C>)
    requires History(rows, id, base, events) && key.0 != id
    ensures History(rows[key := row], id, base, events)
  {
    var after := rows[key := row];
    forall v: int | (id, v) in after ensures (id, v) in rows && after[(id, v)] == rows[(id, v)] { }
  }

  lemma OthersKept<C(!new)>(rows: Table<C>, id: string, now: int, row: Note<C>, other: string, base: int,
    events: seq<Event<C>>)
    requires History(rows, other, base, events) && other != id
    ensures History(CurrentClosed(rows, id, now)[(id, row.version) := row], other, base, events)
  {
    var after := CurrentClosed(rows, id, now)[(id, row.version) := row];
    forall v: int | (other, v) in after ensures 0 <= v - base < |events| && Tells(after[(other, v)], events, v - base) {
      assert (other, v) in rows && after[(other, v)] == rows[(other, v)];
    }
  }

  ghost predicate HasHistory<C(!new)>(rows: Table<C>, id: string) {
    exists b: int, es: seq<Event<C>> :: History(rows, id, b, es)
  }

  /**
   * Creating a note that is there already leaves a history if and only if it has no end, replaces the
   * current row, and that row was the only one or began at the same time.
   */
  lemma CreateAgain<C(!new)>(rows: Table<C>, id: string, base: int, events: seq<Event<C>>, row: Note<C>)
    requires History(rows, id, base, events) && events != [] && row.isCurrent
    ensures HasHistory(rows[(id, row.version) := row], id) <==>
      row.validTo == None && row.version == base + |events| - 1
      && (|events| == 1 || row.validFrom == events[|events| - 1].time)
  {
    var after, n := rows[(id, row.version) := row], |events|;
    if row.validTo == None && row.version == base + n - 1 && (n == 1 || row.validFrom == events[n - 1].time) {
      var es := events[n - 1 := Event(row.content, row.validFrom)];
      forall v: int | (id, v) in after ensures 0 <= v - base < |es| && Tells(after[(id, v)], es, v - base) {
        if v != row.version { assert Tells(rows[(id, v)], events, v - base); }
      }
      assert History(after, id, base, es);
    }
    forall b: int, es: seq<Event<C>> | History(after, id, b, es)
      ensures row.validTo == None && row.version == base + n - 1
      ensures n == 1 || row.validFrom == events[n - 1].time
    {
      ReplacedCurrent(rows, id, base, events, row, b, es);
    }
  }

  lemma ReplacedCurrent<C(!new)>(rows: Table<C>, id: string, base: int, events: seq<Event<C>>, row: Note<C>, b: int,
    es: seq<Event<C>>)
    requires History(rows, id, base, events) && events != [] && row.isCurrent
    requires History(rows[(id, row.version) := row], id, b, es)
    ensures row.validTo == None && row.version == base + |events| - 1
    ensures |events| == 1 || row.validFrom == events[|events| - 1].time
  {
    var after, n := rows[(id, row.version) := row], |events|;
    assert (id, row.version) in after && Tells(after[(id, row.version)], es, row.version - b);
    var last := base + n - 1;
    assert (id, last) in after && Tells(after[(id, last)], es, last - b);
    assert (id, last) in rows && Tells(rows[(id, last)], events, n - 1);
    if n > 1 {
      assert (id, last - 1) in after && Tells(after[(id, last - 1)], es, last - 1 - b);
      assert (id, last - 1) in rows && Tells(rows[(id, last - 1)], events, n - 2);
    }
  }

  /** A note created, updated and created again from its start has no history any more. */
  method CreateTwice() returns (s: NotesStore<int>)
    ensures !HasHistory(s.rows, "note")
  {
    s := new NotesStore<int>();
    var note := Note("note", 0, 7, 1, 1, 0, None, false, "");
    s.CreateNote(note);
    s.UpdateNote(note.(updatedAt := 2), "edit");
    s.Recorded("note");
    CreateAgain(s.rows, "note", 1, s.Events("note"), s.FirstRow(note));
    s.CreateNote(note);
  }

  /**
   * A note changed and then restored within the same second: a restore takes its time cut down to the
   * second, which is before the change, and two rows are valid at once.
   */
  method RestoreInTheSameSecond() returns (s: NotesStore<int>)
    ensures s.Valid() && ("note", 1) in s.rows && ("note", 3) in s.rows
    ensures ValidAt(s.rows[("note", 1)], 1200) && ValidAt(s.rows[("note", 3)], 1200)
  {
    s := new NotesStore<int>();
    var note := Note("note", 0, 7, 500, 500, 0, None, false, "");
    s.CreateNote(note);
    s.UpsertNote(note.(updatedAt := 1500));
    s.Recorded("note");
    assert s.Events("note") == [Event(7, 500), Event(7, 1500)];
    var ok := s.RestoreNoteVersion("note", 1, 1000);
    s.Recorded("note");
    assert s.Events("note") == [Event(7, 500), Event(7, 1500), Event(7, 1000)];
    assert Tells(s.rows[("note", 1)], s.Events("note"), 0) && Tells(s.rows[("note", 3)], s.Events("note"), 2);
  }
}
