/** Merging the shops that match a customer's pincode with the shops in range,
    and marking the closest one as primary. */
module AllocationMerge {
  import opened Common

  /** A shop found by a query: its id, its created_at, and its distance in
      hundredths of a kilometre if that is known.  A row of the radius query
      always has a distance: without coordinates the row is not found. */
  datatype Match = Match(id: nat, created: int, distance: Option<int>)

  datatype Allocation = Allocation(vendor: nat, distance: Option<int>, pincode: Option<string>, primary: bool)

  /** A row of the merge in progress. */
  datatype Entry = Entry(distance: Option<int>, pincode: Option<string>, created: int)

  // ----- what the merge of a shop should be -----

  predicate Listed(ms: seq<Match>, id: nat)
  {
    exists i :: 0 <= i < |ms| && ms[i].id == id
  }

  /** The last row of a shop. */
  function LastRow(ms: seq<Match>, id: nat): (r: Option<Match>)
    ensures r.Some? ==> r.value in ms && r.value.id == id
    ensures r.Some? <==> Listed(ms, id)
  {
    if ms == [] then None
    else if ms[|ms| - 1].id == id then Some(ms[|ms| - 1])
    else
      assert Listed(ms[..|ms| - 1], id) <==> Listed(ms, id) by {
        assert forall i :: 0 <= i < |ms| && ms[i].id == id ==> i < |ms| - 1 && ms[..|ms| - 1][i].id == id;
      }
      LastRow(ms[..|ms| - 1], id)
  }

  /** The first row of a shop. */
  function FirstRow(ms: seq<Match>, id: nat): (r: Option<Match>)
  {
    if ms == [] then None
    else
      var before := FirstRow(ms[..|ms| - 1], id);
      if before.Some? then before
      else if ms[|ms| - 1].id == id then Some(ms[|ms| - 1])
      else None
  }

  function Closer(a: Option<int>, b: Option<int>): Option<int>
  {
    if b == None then a else if a == None || b.value < a.value then b else a
  }

  /** The smallest known distance of a shop, from a starting one and its rows. */
  function Closest(start: Option<int>, ms: seq<Match>, id: nat): Option<int>
  {
    if ms == [] then start
    else
      var before := Closest(start, ms[..|ms| - 1], id);
      if ms[|ms| - 1].id == id then Closer(before, ms[|ms| - 1].distance) else before
  }

  /** A known distance of a shop. */
  ghost predicate IsKnown(start: Option<int>, ms: seq<Match>, id: nat, d: int)
  {
    start == Some(d) || exists i :: 0 <= i < |ms| && ms[i].id == id && ms[i].distance == Some(d)
  }

  /** Closest is the least of the known distances, or None when none is known. */
  lemma {:induction false} ClosestIsLeast(start: Option<int>, ms: seq<Match>, id: nat)
    ensures var c := Closest(start, ms, id);
            && (c.Some? ==> IsKnown(start, ms, id, c.value))
            && (forall d :: IsKnown(start, ms, id, d) ==> c.Some? && c.value <= d)
  {
    if ms != [] {
      var shorter := ms[..|ms| - 1];
      ClosestIsLeast(start, shorter, id);
      forall d
        ensures IsKnown(start, ms, id, d)
           <==> IsKnown(start, shorter, id, d) || (ms[|ms| - 1].id == id && ms[|ms| - 1].distance == Some(d))
      {
        if i :| 0 <= i < |ms| && ms[i].id == id && ms[i].distance == Some(d) {
          assert i < |shorter| ==> shorter[i] == ms[i];
        }
        if i :| 0 <= i < |shorter| && shorter[i].id == id && shorter[i].distance == Some(d) {
          assert ms[i] == shorter[i];
        }
      }
    }
  }

  /** The merged entry of a shop: a pincode match keeps its pincode and its own
      created_at, and the smallest known distance wins. */
  function EntryFor(pincode: string, pins: seq<Match>, rads: seq<Match>, id: nat): Option<Entry>
  {
    match LastRow(pins, id)
    case Some(pin) => Some(Entry(Closest(pin.distance, rads, id), Some(pincode), pin.created))
    case None =>
      match FirstRow(rads, id)
      case Some(first) => Some(Entry(Closest(None, rads, id), None, first.created))
      case None => None
  }

  /** a ranks strictly before b: smaller distance, unknown last, then earlier. */
  predicate Better(a: Entry, b: Entry)
  {
    if a.distance == None && b.distance == None then a.created < b.created
    else if a.distance == None then false
    else if b.distance == None then true
    else a.distance.value < b.distance.value || (a.distance.value == b.distance.value && a.created < b.created)
  }

  /** out is the merge of the two lists: every shop of the union once, with its
      merged entry, and the first of the best ones primary. */
  ghost predicate IsMerge(pincode: string, pins: seq<Match>, rads: seq<Match>, out: seq<Allocation>)
  {
    && (forall i, j :: 0 <= i < j < |out| ==> out[i].vendor != out[j].vendor)
    && (forall id: nat :: Listed(pins, id) || Listed(rads, id) ==> exists i :: 0 <= i < |out| && out[i].vendor == id)
    && (forall i :: 0 <= i < |out| ==> HasEntry(pincode, pins, rads, out[i]))
    && (out != [] ==> exists p :: 0 <= p < |out| && IsPrimary(pincode, pins, rads, out, p))
  }

  ghost predicate HasEntry(pincode: string, pins: seq<Match>, rads: seq<Match>, a: Allocation)
  {
    var e := EntryFor(pincode, pins, rads, a.vendor);
    && (Listed(pins, a.vendor) || Listed(rads, a.vendor))
    && e.Some? && e.value.distance == a.distance && e.value.pincode == a.pincode
  }

  /** Row p, and no other, is primary; no row is better, and no earlier one as good. */
  ghost predicate IsPrimary(pincode: string, pins: seq<Match>, rads: seq<Match>, out: seq<Allocation>, p: nat)
    requires p < |out|
  {
    && (forall i :: 0 <= i < |out| ==> (out[i].primary <==> i == p))
    && (forall i :: 0 <= i < |out| ==> Ranks(pincode, pins, rads, out[p].vendor, out[i].vendor, i < p))
  }

  /** Shop a ranks before shop b, or is at least not behind it. */
  ghost predicate Ranks(pincode: string, pins: seq<Match>, rads: seq<Match>, a: nat, b: nat, strictly: bool)
  {
    var x, y := EntryFor(pincode, pins, rads, a), EntryFor(pincode, pins, rads, b);
    x.Some? && y.Some? && !Better(y.value, x.value) && (strictly ==> Better(x.value, y.value))
  }

  // ----- one more row -----

  lemma ListedStep(ms: seq<Match>, n: nat, id: nat)
    requires n < |ms|
    ensures Listed(ms[..n + 1], id) <==> Listed(ms[..n], id) || ms[n].id == id
  {
    assert ms[..n + 1][n] == ms[n];
    forall i | 0 <= i < n
      ensures ms[..n + 1][i] == ms[..n][i]
    {
    }
  }

  lemma RowsStep(ms: seq<Match>, n: nat, id: nat, start: Option<int>)
    requires n < |ms|
    ensures LastRow(ms[..n + 1], id) == (if ms[n].id == id then Some(ms[n]) else LastRow(ms[..n], id))
    ensures FirstRow(ms[..n], id).Some? ==> FirstRow(ms[..n + 1], id) == FirstRow(ms[..n], id)
    ensures FirstRow(ms[..n], id) == None ==>
              FirstRow(ms[..n + 1], id) == (if ms[n].id == id then Some(ms[n]) else None)
    ensures var before := Closest(start, ms[..n], id);
            Closest(start, ms[..n + 1], id) == (if ms[n].id == id then Closer(before, ms[n].distance) else before)
  {
    assert ms[..n + 1][..n] == ms[..n];
  }

  lemma PinStep(pincode: string, pins: seq<Match>, n: nat, id: nat)
    requires n < |pins|
    ensures pins[n].id == id ==>
              EntryFor(pincode, pins[..n + 1], [], id) == Some(Entry(pins[n].distance, Some(pincode), pins[n].created))
    ensures pins[n].id != id ==> EntryFor(pincode, pins[..n + 1], [], id) == EntryFor(pincode, pins[..n], [], id)
  {
    RowsStep(pins, n, id, None);
  }

  lemma {:induction false} UnlistedRows(start: Option<int>, ms: seq<Match>, id: nat)
    ensures FirstRow(ms, id) == None ==> Closest(start, ms, id) == start
  {
    if ms != [] {
      UnlistedRows(start, ms[..|ms| - 1], id);
    }
  }

  /** The entry after one more radius match. */
  function Merged(before: Option<Entry>, row: Match): Entry
  {
    if before == None then Entry(row.distance, None, row.created)
    else before.value.(distance := Closer(before.value.distance, row.distance))
  }

  lemma RadStep(pincode: string, pins: seq<Match>, rads: seq<Match>, n: nat, id: nat)
    requires n < |rads|
    ensures var before := EntryFor(pincode, pins, rads[..n], id);
            EntryFor(pincode, pins, rads[..n + 1], id)
            == (if rads[n].id == id then Some(Merged(before, rads[n])) else before)
  {
    var pin := LastRow(pins, id);
    var start := if pin.Some? then pin.value.distance else None;
    RowsStep(rads, n, id, start);
    UnlistedRows(start, rads[..n], id);
  }

  // ----- the algorithm -----

  /** The keys of byId in insertion order, and its entries. */
  ghost predicate IsTable(pincode: string, pins: seq<Match>, rads: seq<Match>, keys: seq<nat>, byId: map<nat, Entry>)
  {
    && (forall i, j :: 0 <= i < j < |keys| ==> keys[i] != keys[j])
    && (forall id :: id in byId <==> id in keys)
    && (forall id: nat :: EntryFor(pincode, pins, rads, id) == if id in byId then Some(byId[id]) else None)
  }

  /** Insert the pincode matches, then merge the radius matches in. */
  method BuildTable(pincode: string, pins: seq<Match>, rads: seq<Match>) returns (keys: seq<nat>, byId: map<nat, Entry>)
    ensures IsTable(pincode, pins, rads, keys, byId)
  {
    hide EntryFor;
    keys, byId := [], map[];
    assert IsTable(pincode, pins[..0], [], keys, byId) by {
      NothingMerged(pincode);
    }
    for n := 0 to |pins|
      invariant IsTable(pincode, pins[..n], [], keys, byId)
    {
      var row := pins[n];
      forall id: nat {
        PinStep(pincode, pins, n, id);
      }
      if row.id !in byId {
        keys := keys + [row.id];
      }
      byId := byId[row.id := Entry(row.distance, Some(pincode), row.created)];
    }
    assert pins[..|pins|] == pins;
    assert rads[..0] == [];
    for n := 0 to |rads|
      invariant IsTable(pincode, pins, rads[..n], keys, byId)
    {
      var row := rads[n];
      forall id: nat {
        RadStep(pincode, pins, rads, n, id);
      }
      if row.id in byId {
        var existing := byId[row.id];
        if row.distance.Some? && (existing.distance == None || row.distance.value < existing.distance.value) {
          existing := existing.(distance := row.distance);
        }
        byId := byId[row.id := existing];
      } else {
        keys := keys + [row.id];
        byId := byId[row.id := Entry(row.distance, None, row.created)];
      }
    }
    assert rads[..|rads|] == rads;
  }

  lemma NothingMerged(pincode: string)
    ensures forall id :: EntryFor(pincode, [], [], id) == None
  {
  }

  lemma {:induction false} EntryListed(pincode: string, pins: seq<Match>, rads: seq<Match>, id: nat)
    ensures EntryFor(pincode, pins, rads, id).Some? <==> Listed(pins, id) || Listed(rads, id)
  {
    FirstRowListed(rads, id);
  }

  lemma {:induction false} FirstRowListed(ms: seq<Match>, id: nat)
    ensures FirstRow(ms, id).Some? <==> Listed(ms, id)
  {
    if ms != [] {
      var n := |ms| - 1;
      FirstRowListed(ms[..n], id);
      ListedStep(ms, n, id);
      assert ms[..n + 1] == ms;
    }
  }

  method MergeAndMarkPrimary(pincode: string, pins: seq<Match>, rads: seq<Match>) returns (out: seq<Allocation>)
    ensures IsMerge(pincode, pins, rads, out)
  {
    hide EntryFor, Listed;
    var keys, byId := BuildTable(pincode, pins, rads);
    forall id: nat {
      EntryListed(pincode, pins, rads, id);
    }
    if keys == [] {
      assert forall id: nat :: EntryFor(pincode, pins, rads, id) == None;
      return [];
    }
    var primary := 0;
    for n := 1 to |keys|
      invariant 0 <= primary < n
      invariant forall i :: 0 <= i < n ==> !Better(byId[keys[i]], byId[keys[primary]])
      invariant forall i :: 0 <= i < primary ==> Better(byId[keys[primary]], byId[keys[i]])
    {
      if Better(byId[keys[n]], byId[keys[primary]]) {
        primary := n;
      }
    }
    out := seq(|keys|, i requires 0 <= i < |keys| =>
      Allocation(keys[i], byId[keys[i]].distance, byId[keys[i]].pincode, i == primary));
    TableIsMerge(pincode, pins, rads, keys, byId, primary, out);
  }

  lemma TableIsMerge(pincode: string, pins: seq<Match>, rads: seq<Match>, keys: seq<nat>, byId: map<nat, Entry>,
                     primary: nat, out: seq<Allocation>)
    requires IsTable(pincode, pins, rads, keys, byId) && primary < |keys| == |out|
    requires forall id: nat :: EntryFor(pincode, pins, rads, id).Some? <==> Listed(pins, id) || Listed(rads, id)
    requires forall i :: 0 <= i < |keys| ==>
               out[i] == Allocation(keys[i], byId[keys[i]].distance, byId[keys[i]].pincode, i == primary)
    requires forall i :: 0 <= i < |keys| ==> !Better(byId[keys[i]], byId[keys[primary]])
    requires forall i :: 0 <= i < primary ==> Better(byId[keys[primary]], byId[keys[i]])
    ensures IsMerge(pincode, pins, rads, out)
  {
    hide EntryFor, Listed, Better;
    forall id: nat | Listed(pins, id) || Listed(rads, id)
      ensures exists i :: 0 <= i < |out| && out[i].vendor == id
    {
      assert id in keys;
      var i :| 0 <= i < |keys| && keys[i] == id;
      assert out[i].vendor == id;
    }
    assert IsPrimary(pincode, pins, rads, out, primary);
  }

  // ----- what the merge means -----

  /** A row of either list has this distance for the shop. */
  ghost predicate HasDistance(pins: seq<Match>, rads: seq<Match>, id: nat, d: int)
  {
    || (exists i :: 0 <= i < |pins| && pins[i].id == id && pins[i].distance == Some(d))
    || (exists i :: 0 <= i < |rads| && rads[i].id == id && rads[i].distance == Some(d))
  }

  /** Every allocation: its pincode is set exactly when the pincode list has the
      shop, and its distance is the least that any row of either list has. */
  lemma MergedRow(pincode: string, pins: seq<Match>, rads: seq<Match>, out: seq<Allocation>, k: nat)
    requires IsMerge(pincode, pins, rads, out) && DistinctIds(pins) && k < |out|
    ensures var a := out[k];
            && a.pincode == (if exists i :: 0 <= i < |pins| && pins[i].id == a.vendor then Some(pincode) else None)
            && (a.distance.Some? ==> HasDistance(pins, rads, a.vendor, a.distance.value))
            && (forall d :: HasDistance(pins, rads, a.vendor, d) ==> a.distance.Some? && a.distance.value <= d)
  {
    hide Closest;
    var a := out[k];
    assert HasEntry(pincode, pins, rads, a);
    var pin := LastRow(pins, a.vendor);
    var start := if pin.Some? then pin.value.distance else None;
    ClosestIsLeast(start, rads, a.vendor);
    forall d
      ensures HasDistance(pins, rads, a.vendor, d) <==> IsKnown(start, rads, a.vendor, d)
    {
      if i :| 0 <= i < |pins| && pins[i].id == a.vendor && pins[i].distance == Some(d) {
        OneRow(pins, pins[i], pin.value);
      }
    }
  }

  /** The primary shop: no other one is closer, and none as close is older.  A
      shop of unknown distance is primary only when no distance is known. */
  lemma PrimaryIsBest(pincode: string, pins: seq<Match>, rads: seq<Match>, out: seq<Allocation>,
                      created: nat -> int, p: nat, k: nat)
    requires IsMerge(pincode, pins, rads, out)
    requires forall m :: m in pins || m in rads ==> m.created == created(m.id)
    requires p < |out| && k < |out| && out[p].primary
    ensures out[k].primary ==> k == p
    ensures var a, b := out[p], out[k];
            && (b.distance.Some? ==> a.distance.Some? && a.distance.value <= b.distance.value)
            && (a.distance == b.distance ==> created(a.vendor) <= created(b.vendor))
  {
    hide Closest, Listed;
    var q :| 0 <= q < |out| && IsPrimary(pincode, pins, rads, out, q);
    assert q == p;
    assert HasEntry(pincode, pins, rads, out[p]) && HasEntry(pincode, pins, rads, out[k]);
    CreatedOf(pincode, pins, rads, created, out[p].vendor);
    CreatedOf(pincode, pins, rads, created, out[k].vendor);
  }

  lemma CreatedOf(pincode: string, pins: seq<Match>, rads: seq<Match>, created: nat -> int, id: nat)
    requires forall m :: m in pins || m in rads ==> m.created == created(m.id)
    ensures EntryFor(pincode, pins, rads, id).Some? ==> EntryFor(pincode, pins, rads, id).value.created == created(id)
  {
    hide Closest;
    FirstRowIn(rads, id);
  }

  // ----- the result does not depend on the order of the rows -----

  ghost predicate SameRows(a: seq<Match>, b: seq<Match>)
  {
    forall m :: m in a <==> m in b
  }

  ghost predicate DistinctIds(ms: seq<Match>)
  {
    forall i, j :: 0 <= i < j < |ms| ==> ms[i].id != ms[j].id
  }

  /** No two shops tie on both distance and created_at. */
  ghost predicate DistinctKeys(pincode: string, pins: seq<Match>, rads: seq<Match>)
  {
    forall a: nat, b: nat :: a != b ==> !Tie(EntryFor(pincode, pins, rads, a), EntryFor(pincode, pins, rads, b))
  }

  predicate Tie(a: Option<Entry>, b: Option<Entry>)
  {
    a.Some? && b.Some? && a.value.distance == b.value.distance && a.value.created == b.value.created
  }

  lemma OneRow(ms: seq<Match>, a: Match, b: Match)
    requires DistinctIds(ms) && a in ms && b in ms && a.id == b.id
    ensures a == b
  {
  }

  lemma {:induction false} FirstRowIn(ms: seq<Match>, id: nat)
    ensures FirstRow(ms, id).Some? ==> FirstRow(ms, id).value in ms && FirstRow(ms, id).value.id == id
  {
    if ms != [] {
      FirstRowIn(ms[..|ms| - 1], id);
    }
  }

  lemma SameListed(a: seq<Match>, b: seq<Match>, id: nat)
    requires SameRows(a, b)
    ensures Listed(a, id) <==> Listed(b, id)
  {
    if i :| 0 <= i < |a| && a[i].id == id {
      assert a[i] in b;
    }
    if i :| 0 <= i < |b| && b[i].id == id {
      assert b[i] in a;
    }
  }

  lemma SameFirstAndLast(a: seq<Match>, b: seq<Match>, id: nat)
    requires SameRows(a, b) && DistinctIds(a) && DistinctIds(b)
    ensures LastRow(a, id) == LastRow(b, id) && FirstRow(a, id) == FirstRow(b, id)
  {
    hide LastRow, FirstRow;
    SameListed(a, b, id);
    FirstRowListed(a, id);
    FirstRowListed(b, id);
    FirstRowIn(a, id);
    FirstRowIn(b, id);
    if Listed(a, id) {
      OneRow(a, LastRow(a, id).value, LastRow(b, id).value);
      OneRow(a, FirstRow(a, id).value, FirstRow(b, id).value);
    }
  }

  lemma SameClosest(start: Option<int>, a: seq<Match>, b: seq<Match>, id: nat)
    requires SameRows(a, b)
    ensures Closest(start, a, id) == Closest(start, b, id)
  {
    hide Closest;
    ClosestIsLeast(start, a, id);
    ClosestIsLeast(start, b, id);
    forall d
      ensures IsKnown(start, a, id, d) <==> IsKnown(start, b, id, d)
    {
      if i :| 0 <= i < |a| && a[i].id == id && a[i].distance == Some(d) {
        assert a[i] in b;
      }
      if i :| 0 <= i < |b| && b[i].id == id && b[i].distance == Some(d) {
        assert b[i] in a;
      }
    }
  }

  lemma SameEntry(pincode: string, pins: seq<Match>, rads: seq<Match>, pins': seq<Match>, rads': seq<Match>, id: nat)
    requires SameRows(pins, pins') && SameRows(rads, rads')
    requires DistinctIds(pins) && DistinctIds(pins') && DistinctIds(rads) && DistinctIds(rads')
    ensures EntryFor(pincode, pins, rads, id) == EntryFor(pincode, pins', rads', id)
  {
    hide LastRow, FirstRow, Closest;
    SameFirstAndLast(pins, pins', id);
    SameFirstAndLast(rads, rads', id);
    SameClosest(None, rads, rads', id);
    var pin := LastRow(pins, id);
    if pin.Some? {
      SameClosest(pin.value.distance, rads, rads', id);
    }
  }

  /** With distinct ids in each list and no ties, any order of the rows gives
      the same allocations, the primary included. */
  lemma OrderIndependent(pincode: string, pins: seq<Match>, rads: seq<Match>, out: seq<Allocation>,
                         pins': seq<Match>, rads': seq<Match>, out': seq<Allocation>)
    requires IsMerge(pincode, pins, rads, out) && IsMerge(pincode, pins', rads', out')
    requires SameRows(pins, pins') && SameRows(rads, rads')
    requires DistinctIds(pins) && DistinctIds(pins') && DistinctIds(rads) && DistinctIds(rads')
    requires DistinctKeys(pincode, pins, rads)
    ensures forall a :: a in out <==> a in out'
  {
    hide EntryFor, Listed;
    forall id: nat
      ensures EntryFor(pincode, pins, rads, id) == EntryFor(pincode, pins', rads', id)
      ensures Listed(pins, id) <==> Listed(pins', id)
      ensures Listed(rads, id) <==> Listed(rads', id)
    {
      SameEntry(pincode, pins, rads, pins', rads', id);
      SameListed(pins, pins', id);
      SameListed(rads, rads', id);
    }
    forall a | a in out
      ensures a in out'
    {
      SameAllocation(pincode, pins, rads, out, pins', rads', out', a);
    }
    forall a | a in out'
      ensures a in out
    {
      SameAllocation(pincode, pins', rads', out', pins, rads, out, a);
    }
  }

  lemma SameAllocation(pincode: string, pins: seq<Match>, rads: seq<Match>, out: seq<Allocation>,
                       pins': seq<Match>, rads': seq<Match>, out': seq<Allocation>, a: Allocation)
    requires IsMerge(pincode, pins, rads, out) && IsMerge(pincode, pins', rads', out')
    requires forall id: nat :: EntryFor(pincode, pins, rads, id) == EntryFor(pincode, pins', rads', id)
    requires forall id: nat :: Listed(pins, id) <==> Listed(pins', id)
    requires forall id: nat :: Listed(rads, id) <==> Listed(rads', id)
    requires DistinctKeys(pincode, pins, rads) && a in out
    ensures a in out'
  {
    hide EntryFor, Listed, Better;
    var i :| 0 <= i < |out| && out[i] == a;
    assert HasEntry(pincode, pins, rads, out[i]);
    var j :| 0 <= j < |out'| && out'[j].vendor == a.vendor;
    assert HasEntry(pincode, pins', rads', out'[j]);
    var p :| 0 <= p < |out| && IsPrimary(pincode, pins, rads, out, p);
    var p' :| 0 <= p' < |out'| && IsPrimary(pincode, pins', rads', out', p');
    PrimaryUnique(pincode, pins, rads, out, p, pins', rads', out', p');
    assert i == p <==> out[i].vendor == out[p].vendor;
    assert j == p' <==> out'[j].vendor == out'[p'].vendor;
    assert out'[j] == a;
  }

  lemma PrimaryUnique(pincode: string, pins: seq<Match>, rads: seq<Match>, out: seq<Allocation>, p: nat,
                      pins': seq<Match>, rads': seq<Match>, out': seq<Allocation>, p': nat)
    requires IsMerge(pincode, pins, rads, out) && IsMerge(pincode, pins', rads', out')
    requires forall id: nat :: EntryFor(pincode, pins, rads, id) == EntryFor(pincode, pins', rads', id)
    requires forall id: nat :: Listed(pins, id) <==> Listed(pins', id)
    requires forall id: nat :: Listed(rads, id) <==> Listed(rads', id)
    requires DistinctKeys(pincode, pins, rads)
    requires p < |out| && p' < |out'|
    requires IsPrimary(pincode, pins, rads, out, p) && IsPrimary(pincode, pins', rads', out', p')
    ensures out[p].vendor == out'[p'].vendor
  {
    hide EntryFor, Listed;
    assert HasEntry(pincode, pins, rads, out[p]);
    assert HasEntry(pincode, pins', rads', out'[p']);
    var i :| 0 <= i < |out| && out[i].vendor == out'[p'].vendor;
    var j :| 0 <= j < |out'| && out'[j].vendor == out[p].vendor;
    assert Ranks(pincode, pins, rads, out[p].vendor, out[i].vendor, i < p);
    assert Ranks(pincode, pins', rads', out'[p'].vendor, out'[j].vendor, j < p');
    BetterTotal(EntryFor(pincode, pins, rads, out[p].vendor).value, EntryFor(pincode, pins, rads, out[i].vendor).value);
  }

  lemma BetterTotal(a: Entry, b: Entry)
    ensures Better(a, b) || Better(b, a) || Tie(Some(a), Some(b))
  {
  }
}
