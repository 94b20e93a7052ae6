/**
 * Control-bus automation: the render-wide table of control-bus values by
 * offset and engine bus id, and the one set request it yields per offset.
 */
module BusRequests {
  import opened Wrappers
  import opened Offsets
  import opened Entities
  import opened Sorting

  /**
   * The bus values recorded at one offset, bus id to value: a dictionary,
   * kept as its items in insertion order.
   */
  type Row = seq<(int, real)>

  /** Offset to the bus values recorded there. */
  type BusSettings = map<Offset, Row>

  /** No bus id appears twice in a row. */
  predicate UniqueKeys(row: Row) {
    forall i, j :: 0 <= i < j < |row| ==> row[i].0 != row[j].0
  }

  predicate RowsUnique(m: BusSettings) {
    forall o :: o in m ==> UniqueKeys(m[o])
  }

  /** Bus `x` has a value in the row. */
  predicate HasKey(row: Row, x: int) {
    exists i :: 0 <= i < |row| && row[i].0 == x
  }

  /** Dictionary assignment: overwrite the entry for `x` in place, or append one. */
  function Put(row: Row, x: int, value: real): (r: Row)
    requires UniqueKeys(row)
    ensures UniqueKeys(r)
    ensures forall p :: p in r <==> p == (x, value) || (p in row && p.0 != x)
  {
    if row == [] then [(x, value)]
    else if row[0].0 == x then
      assert forall p :: p in row[1..] ==> p.0 != x by {
        forall k | 0 <= k < |row[1..]| ensures row[1..][k].0 != x { assert row[1..][k] == row[k + 1]; }
      }
      assert forall p :: p in row <==> p == row[0] || p in row[1..];
      [(x, value)] + row[1..]
    else
      assert UniqueKeys(row[1..]) by {
        forall i, j | 0 <= i < j < |row[1..]| ensures row[1..][i].0 != row[1..][j].0 {
          assert row[1..][i] == row[i + 1] && row[1..][j] == row[j + 1];
        }
      }
      var rest := Put(row[1..], x, value);
      assert forall p :: p in row <==> p == row[0] || p in row[1..];
      assert forall k :: 0 <= k < |rest| ==> rest[k] in rest;
      assert forall k :: 0 <= k < |row[1..]| ==> row[1..][k] == row[k + 1];
      [row[0]] + rest
  }

  // ------------------------------------------------------------------ the set request

  function BusId(p: (int, real)): int {
    p.0
  }

  /** The pairs of a row, ascending by bus id (Python's `sorted(d.items())`). */
  function SortedPairs(row: Row): (r: Row)
    requires UniqueKeys(row)
    ensures forall i, j :: 0 <= i < j < |r| ==> r[i].0 < r[j].0
    ensures forall p :: p in r <==> p in row
  {
    var r := SortBy(row, BusId);
    forall p ensures p in r <==> p in row {
      assert p in r <==> p in multiset(r);
      assert p in row <==> p in multiset(row);
    }
    forall i, j | 0 <= i < j < |r| ensures r[i].0 < r[j].0 {
      assert BusId(r[i]) <= BusId(r[j]);
      if r[i].0 == r[j].0 {
        assert r[i] in row && r[j] in row;
        var a :| 0 <= a < |row| && row[a] == r[i];
        var b :| 0 <= b < |row| && row[b] == r[j];
        assert a == b;
        TwiceCounted(r, i, j);
        OnceInUniqueRow(row, a);
      }
    }
    r
  }

  lemma TwiceCounted<T>(s: seq<T>, i: int, j: int)
    requires 0 <= i < j < |s| && s[i] == s[j]
    ensures multiset(s)[s[i]] >= 2
  {
    assert s == s[..i] + [s[i]] + s[i + 1..j] + [s[j]] + s[j + 1..];
  }

  /** In a row with unique keys every pair occurs once. */
  lemma {:induction false} OnceInUniqueRow(row: Row, a: nat)
    requires UniqueKeys(row) && a < |row|
    ensures multiset(row)[row[a]] == 1
  {
    var x := row[a];
    assert row == row[..a] + [x] + row[a + 1..];
    assert x !in row[..a] by {
      forall k | 0 <= k < a ensures row[..a][k] != x { assert row[..a][k] == row[k]; }
    }
    var tail := row[a + 1..];
    assert x !in tail by {
      forall k | 0 <= k < |tail| ensures tail[k] != x { assert tail[k] == row[a + 1 + k]; }
    }
  }

  /**
   * `_collect_bus_set_requests`: at an offset the table mentions, one request
   * setting every recorded bus value, ascending by bus id; nothing elsewhere.
   */
  function CollectBusSetRequests(settings: BusSettings, offset: Offset): (r: seq<Request>)
    requires RowsUnique(settings)
    ensures offset !in settings ==> r == []
    ensures offset in settings ==>
      && |r| == 1 && r[0].ControlBusSet?
      && (forall i, j :: 0 <= i < j < |r[0].pairs| ==> r[0].pairs[i].0 < r[0].pairs[j].0)
      && (forall p :: p in r[0].pairs <==> p in settings[offset])
  {
    if offset in settings then [ControlBusSet(SortedPairs(settings[offset]))] else []
  }

  // ------------------------------------------------------------------ the settings table

  /** `setdefault(offset, {})[x] = value`. */
  function Record(m: BusSettings, x: int, offset: Offset, value: real): (r: BusSettings)
    requires RowsUnique(m)
    ensures RowsUnique(r)
    ensures r.Keys == m.Keys + {offset}
    ensures forall o :: o in m && o != offset ==> r[o] == m[o]
    ensures forall p :: p in r[offset] <==> p == (x, value) || (offset in m && p in m[offset] && p.0 != x)
  {
    var row := if offset in m then m[offset] else [];
    m[offset := Put(row, x, value)]
  }

  /** One bus's events, recorded in order. */
  function RecordEvents(m: BusSettings, x: int, events: seq<(Offset, real)>): (r: BusSettings)
    requires RowsUnique(m)
    ensures RowsUnique(r)
  {
    if events == [] then m
    else
      var n := |events| - 1;
      Record(RecordEvents(m, x, events[..n]), x, events[n].0, events[n].1)
  }

  /** Every control bus has an engine id (audio buses are skipped). */
  predicate ControlMapped(buses: seq<Bus>, ids: map<BusKey, int>) {
    forall b :: b in buses && b.rate == ControlRate ==> BusObj(b) in ids
  }

  /** The settings table: the control buses' events recorded bus by bus. */
  function BusSettingsOf(buses: seq<Bus>, ids: map<BusKey, int>): (r: Result<BusSettings>)
    ensures r.Ok? <==> ControlMapped(buses, ids)
    ensures r.Ok? ==> RowsUnique(r.value)
    ensures r.Err? ==> r.error == UnresolvedReference
  {
    if buses == [] then Ok(map[])
    else
      var n := |buses| - 1;
      var b := buses[n];
      assert forall c :: c in buses <==> c in buses[..n] || c == b;
      match BusSettingsOf(buses[..n], ids)
      case Err(e) => Err(e)
      case Ok(m) =>
        if b.rate != ControlRate then Ok(m)
        else if BusObj(b) !in ids then Err(UnresolvedReference)
        else Ok(RecordEvents(m, ids[BusObj(b)], b.events))
  }

  /** `_collect_bus_settings`. */
  method CollectBusSettings(ids: map<BusKey, int>, buses: seq<Bus>) returns (r: Result<BusSettings>)
    ensures r == BusSettingsOf(buses, ids)
  {
    var m: BusSettings := map[];
    var i := 0;
    while i < |buses|
      invariant 0 <= i <= |buses|
      invariant BusSettingsOf(buses[..i], ids) == Ok(m)
    {
      var b := buses[i];
      assert buses[..i + 1][..i] == buses[..i];
      if b.rate == ControlRate {
        if BusObj(b) !in ids {
          BusSettingsErrPersists(buses, ids, i + 1);
          assert buses[..|buses|] == buses;
          return Err(UnresolvedReference);
        }
        var x := ids[BusObj(b)];
        var j := 0;
        ghost var before := m;
        while j < |b.events|
          invariant 0 <= j <= |b.events|
          invariant m == RecordEvents(before, x, b.events[..j])
        {
          assert b.events[..j + 1][..j] == b.events[..j];
          m := Record(m, x, b.events[j].0, b.events[j].1);
          j := j + 1;
        }
        assert b.events[..j] == b.events;
      }
      i := i + 1;
    }
    assert buses[..i] == buses;
    r := Ok(m);
  }

  /** Once a prefix of the buses fails, the whole table fails. */
  lemma {:induction false} BusSettingsErrPersists(buses: seq<Bus>, ids: map<BusKey, int>, k: nat)
    requires k <= |buses| && BusSettingsOf(buses[..k], ids).Err?
    ensures BusSettingsOf(buses, ids).Err?
  {
    assert !ControlMapped(buses[..k], ids);
    var b :| b in buses[..k] && b.rate == ControlRate && BusObj(b) !in ids;
    assert b in buses;
  }

  /** Bus `x` has some event recording `value` at `offset`. */
  predicate Recorded(buses: seq<Bus>, ids: map<BusKey, int>, offset: Offset, x: int, value: real) {
    exists i, j :: 0 <= i < |buses| && buses[i].rate == ControlRate && BusObj(buses[i]) in ids
      && ids[BusObj(buses[i])] == x && 0 <= j < |buses[i].events| && buses[i].events[j] == (offset, value)
  }

  lemma RecordedPrefix(buses: seq<Bus>, n: nat, ids: map<BusKey, int>, offset: Offset, x: int, value: real)
    requires n <= |buses| && Recorded(buses[..n], ids, offset, x, value)
    ensures Recorded(buses, ids, offset, x, value)
  {
    var i, j :| 0 <= i < n && buses[..n][i].rate == ControlRate && BusObj(buses[..n][i]) in ids
      && ids[BusObj(buses[..n][i])] == x && 0 <= j < |buses[..n][i].events| && buses[..n][i].events[j] == (offset, value);
    assert buses[i] == buses[..n][i];
  }

  /** Bus `x` has a value at offset `o` of the table. */
  predicate Holds(m: BusSettings, o: Offset, x: int) {
    o in m && HasKey(m[o], x)
  }

  /** The table holds `p` at offset `o`. */
  predicate InTable(m: BusSettings, o: Offset, p: (int, real)) {
    o in m && p in m[o]
  }

  /** `p` is bus `x`'s value from one of the events at offset `o`. */
  predicate FromEvent(events: seq<(Offset, real)>, x: int, o: Offset, p: (int, real)) {
    p.0 == x && exists j :: 0 <= j < |events| && events[j] == (o, p.1)
  }

  lemma RecordProvenance(m: BusSettings, x: int, offset: Offset, value: real, o: Offset, p: (int, real))
    requires RowsUnique(m)
    requires InTable(Record(m, x, offset, value), o, p)
    ensures InTable(m, o, p) || (o == offset && p == (x, value))
  {
  }

  lemma FromEventPrefix(events: seq<(Offset, real)>, n: nat, x: int, o: Offset, p: (int, real))
    requires n <= |events| && FromEvent(events[..n], x, o, p)
    ensures FromEvent(events, x, o, p)
  {
    var j :| 0 <= j < n && events[..n][j] == (o, p.1);
    assert events[j] == events[..n][j];
  }

  /** Every pair the recorded table holds was there before or comes from one of the events. */
  lemma {:induction false} RecordEventsProvenance(m: BusSettings, x: int, events: seq<(Offset, real)>)
    requires RowsUnique(m)
    ensures var r := RecordEvents(m, x, events);
      forall o, p :: InTable(r, o, p) ==> InTable(m, o, p) || FromEvent(events, x, o, p)
  {
    if events != [] {
      var n := |events| - 1;
      var prev := events[..n];
      RecordEventsProvenance(m, x, prev);
      var q := RecordEvents(m, x, prev);
      var r := RecordEvents(m, x, events);
      forall o, p | InTable(r, o, p) ensures InTable(m, o, p) || FromEvent(events, x, o, p) {
        RecordProvenance(q, x, events[n].0, events[n].1, o, p);
        if InTable(q, o, p) {
          if !InTable(m, o, p) {
            FromEventPrefix(events, n, x, o, p);
          }
        } else {
          assert events[n] == (o, p.1);
        }
      }
    }
  }

  /** Recording one value keeps every bus that had a value, and adds `x` at `offset`. */
  lemma RecordHolds(m: BusSettings, x: int, offset: Offset, value: real)
    requires RowsUnique(m)
    ensures var r := Record(m, x, offset, value);
      && (forall o, y :: Holds(m, o, y) ==> Holds(r, o, y))
      && Holds(r, offset, x)
  {
    var r := Record(m, x, offset, value);
    forall o, y | Holds(m, o, y) ensures Holds(r, o, y) {
      var i :| 0 <= i < |m[o]| && m[o][i].0 == y;
      var p := if o == offset && y == x then (x, value) else m[o][i];
      assert p in r[o];
      var k :| 0 <= k < |r[o]| && r[o][k] == p;
    }
    assert (x, value) in r[offset];
    var k :| 0 <= k < |r[offset]| && r[offset][k] == (x, value);
  }

  /** The recorded table keeps every bus that had a value, and gives `x` a value at every event's offset. */
  lemma {:induction false} RecordEventsHolds(m: BusSettings, x: int, events: seq<(Offset, real)>)
    requires RowsUnique(m)
    ensures var r := RecordEvents(m, x, events);
      && (forall o, y :: Holds(m, o, y) ==> Holds(r, o, y))
      && (forall j :: 0 <= j < |events| ==> Holds(r, events[j].0, x))
  {
    if events != [] {
      var n := |events| - 1;
      var prev := events[..n];
      RecordEventsHolds(m, x, prev);
      var q := RecordEvents(m, x, prev);
      RecordHolds(q, x, events[n].0, events[n].1);
      var r := RecordEvents(m, x, events);
      assert r == Record(q, x, events[n].0, events[n].1);
      forall j | 0 <= j < |events| ensures Holds(r, events[j].0, x) {
        if j < n {
          assert events[j] == prev[j];
        }
      }
    }
  }

  /** The table after one more bus: its events recorded if it is a control bus. */
  lemma BusSettingsStep(buses: seq<Bus>, ids: map<BusKey, int>)
    requires buses != [] && ControlMapped(buses, ids)
    ensures var n := |buses| - 1;
      var b := buses[n];
      && ControlMapped(buses[..n], ids)
      && BusSettingsOf(buses, ids).value
         == if b.rate == ControlRate then RecordEvents(BusSettingsOf(buses[..n], ids).value, ids[BusObj(b)], b.events)
            else BusSettingsOf(buses[..n], ids).value
  {
    var n := |buses| - 1;
    assert forall c :: c in buses[..n] ==> c in buses;
  }

  /** Every value the settings table holds was recorded by an event of a control bus mapped to that id. */
  lemma {:induction false} BusSettingsProvenance(buses: seq<Bus>, ids: map<BusKey, int>)
    requires ControlMapped(buses, ids)
    ensures var r := BusSettingsOf(buses, ids).value;
      forall o, p :: InTable(r, o, p) ==> Recorded(buses, ids, o, p.0, p.1)
  {
    if buses != [] {
      var n := |buses| - 1;
      var prev := buses[..n];
      var b := buses[n];
      BusSettingsStep(buses, ids);
      BusSettingsProvenance(prev, ids);
      var m := BusSettingsOf(prev, ids).value;
      var r := BusSettingsOf(buses, ids).value;
      if b.rate == ControlRate {
        RecordEventsProvenance(m, ids[BusObj(b)], b.events);
      }
      forall o, p | InTable(r, o, p) ensures Recorded(buses, ids, o, p.0, p.1) {
        if InTable(m, o, p) {
          RecordedPrefix(buses, n, ids, o, p.0, p.1);
        } else {
          var j :| 0 <= j < |b.events| && b.events[j] == (o, p.1);
          assert buses[n] == b;
        }
      }
    }
  }

  /** Every event of a control bus mapped to `x` gives `x` a value at its offset in the settings table. */
  lemma {:induction false} BusSettingsComplete(buses: seq<Bus>, ids: map<BusKey, int>)
    requires ControlMapped(buses, ids)
    ensures var r := BusSettingsOf(buses, ids).value;
      forall o, x, v :: Recorded(buses, ids, o, x, v) ==> Holds(r, o, x)
  {
    if buses != [] {
      var n := |buses| - 1;
      var prev := buses[..n];
      var b := buses[n];
      BusSettingsStep(buses, ids);
      BusSettingsComplete(prev, ids);
      var m := BusSettingsOf(prev, ids).value;
      var r := BusSettingsOf(buses, ids).value;
      if b.rate == ControlRate {
        RecordEventsHolds(m, ids[BusObj(b)], b.events);
      }
      forall o, x, v | Recorded(buses, ids, o, x, v) ensures Holds(r, o, x) {
        var i, j :| 0 <= i < |buses| && buses[i].rate == ControlRate && BusObj(buses[i]) in ids
          && ids[BusObj(buses[i])] == x && 0 <= j < |buses[i].events| && buses[i].events[j] == (o, v);
        if i < n {
          assert prev[i] == buses[i];
          assert Recorded(prev, ids, o, x, v);
        }
      }
    }
  }
}
