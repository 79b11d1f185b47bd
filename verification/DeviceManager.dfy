/** Reconciling the live device set with the configuration.  A device object is
    an index into the store of all objects ever made, so identity survives
    changes of its configuration. */
module DeviceManager {
  import opened Common
  import opened Text

  /** A cpe section; settings stands for the fields that play no part here. */
  datatype Cpe = Cpe(id: string, host: string, username: string, enabled: bool, settings: string)

  type Obj = nat

  datatype Dev = Dev(cfg: Cpe, closed: bool)

  datatype Set = Set(devices: map<string, Obj>, heap: seq<Dev>)

  datatype Change = HostChanged(id: string) | Added(id: string) | Removed(id: string)

  const DEFAULT_HOST := "192.168.8.1"
  const DEFAULT_USER := "admin"

  function Effective(host: string): (r: string)
    ensures r != []
  {
    if host == [] then DEFAULT_HOST else host
  }

  /** New */
  function NewDevice(c: Cpe): Dev {
    Dev(c.(host := Effective(c.host), username := if c.username == [] then DEFAULT_USER else c.username), false)
  }

  /** What Update leaves of a section: a kept device takes it as it stands, without
      the defaults a new one gets. */
  function Settled(c: Cpe, kept: bool): Dev {
    if kept then Dev(c, false) else NewDevice(c)
  }

  /** A device object is made and entered under its id. */
  function Create(m: Set, c: Cpe): Set {
    Set(m.devices[c.id := |m.heap|], m.heap + [NewDevice(c)])
  }

  predicate Wf(m: Set) {
    forall id :: id in m.devices ==> m.devices[id] < |m.heap|
  }

  function At(m: Set, id: string): Dev
    requires Wf(m) && id in m.devices
  {
    m.heap[m.devices[id]]
  }

  predicate Keeps(m: Set, c: Cpe)
    requires Wf(m)
  {
    c.id in m.devices && At(m, c.id).cfg.host == c.host
  }

  /** What one configured section does to the set. */
  function UpdateOne(m: Set, c: Cpe): (r: Set)
    requires Wf(m)
    ensures Wf(r)
  {
    if c.id !in m.devices then Create(m, c)
    else
      var o := m.devices[c.id];
      if m.heap[o].cfg.host != c.host then Create(m.(heap := m.heap[o := Dev(c, true)]), c)
      else m.(heap := m.heap[o := m.heap[o].(cfg := c)])
  }

  function ChangeOne(m: Set, c: Cpe): seq<Change>
    requires Wf(m)
  {
    if c.id !in m.devices then [Added(c.id)] else if Keeps(m, c) then [] else [HostChanged(c.id)]
  }

  function UpdateAll(m: Set, cfgs: seq<Cpe>): (r: Set)
    requires Wf(m)
    ensures Wf(r)
    decreases |cfgs|
  {
    if cfgs == [] then m else UpdateAll(UpdateOne(m, cfgs[0]), cfgs[1..])
  }

  function ChangesAll(m: Set, cfgs: seq<Cpe>): seq<Change>
    requires Wf(m)
    decreases |cfgs|
  {
    if cfgs == [] then [] else ChangeOne(m, cfgs[0]) + ChangesAll(UpdateOne(m, cfgs[0]), cfgs[1..])
  }

  function Ids(cfgs: seq<Cpe>): set<string> {
    set c | c in cfgs :: c.id
  }

  /** Devices outside keep are closed and forgotten. */
  function Retain(m: Set, keep: set<string>): (r: Set)
    requires Wf(m)
    ensures Wf(r)
  {
    var gone := set id | id in m.devices && id !in keep :: m.devices[id];
    Set(map id | id in m.devices && id in keep :: m.devices[id],
        seq(|m.heap|, o requires 0 <= o < |m.heap| => if o in gone then m.heap[o].(closed := true) else m.heap[o]))
  }

  /** The state Update leaves. */
  function Updated(m: Set, cfgs: seq<Cpe>): (r: Set)
    requires Wf(m)
    ensures Wf(r)
  {
    Retain(UpdateAll(m, cfgs), Ids(cfgs))
  }

  /** The devices Update removes. */
  function Dropped(m: Set, cfgs: seq<Cpe>): set<string>
    requires Wf(m)
  {
    m.devices.Keys - Ids(cfgs)
  }

  predicate NoChange(m: Set, cfgs: seq<Cpe>)
    requires Wf(m)
  {
    ChangesAll(m, cfgs) == [] && Dropped(m, cfgs) == {}
  }

  // ---- ownership ----

  /** Every mapped object is open, under its own id, and has a host. */
  ghost predicate Mapped(m: Set) {
    && Wf(m)
    && forall id :: id in m.devices ==> At(m, id).cfg.id == id && !At(m, id).closed && At(m, id).cfg.host != []
  }

  /** And no other object is open. */
  ghost predicate Owned(m: Set) {
    && Mapped(m)
    && forall o :: 0 <= o < |m.heap| && !m.heap[o].closed ==>
         m.heap[o].cfg.id in m.devices && m.devices[m.heap[o].cfg.id] == o
  }

  lemma MappedOne(m: Set, c: Cpe)
    requires Mapped(m)
    ensures Mapped(UpdateOne(m, c))
    ensures UpdateOne(m, c).devices.Keys == m.devices.Keys + {c.id}
  {
    var r := UpdateOne(m, c);
    hide Effective;
    forall id | id in r.devices
      ensures At(r, id).cfg.id == id && !At(r, id).closed && At(r, id).cfg.host != []
    {
      if id != c.id && c.id in m.devices { assert m.devices[id] != m.devices[c.id]; }
    }
  }

  lemma OwnedOne(m: Set, c: Cpe)
    requires Owned(m)
    ensures Owned(UpdateOne(m, c))
  {
    MappedOne(m, c);
    var r := UpdateOne(m, c);
    hide Effective, Mapped;
    forall x | 0 <= x < |r.heap| && !r.heap[x].closed
      ensures r.heap[x].cfg.id in r.devices && r.devices[r.heap[x].cfg.id] == x
    {
      if x < |m.heap| && !m.heap[x].closed {
        assert m.heap[x].cfg.id in m.devices && m.devices[m.heap[x].cfg.id] == x;
      }
    }
  }

  lemma {:induction false} MappedAll(m: Set, cfgs: seq<Cpe>)
    requires Mapped(m)
    ensures Mapped(UpdateAll(m, cfgs))
    ensures UpdateAll(m, cfgs).devices.Keys == m.devices.Keys + Ids(cfgs)
    decreases |cfgs|
  {
    if cfgs != [] {
      MappedOne(m, cfgs[0]);
      hide Mapped, UpdateOne;
      MappedAll(UpdateOne(m, cfgs[0]), cfgs[1..]);
      IdsCons(cfgs);
    }
  }

  lemma {:induction false} OwnedAll(m: Set, cfgs: seq<Cpe>)
    requires Owned(m)
    ensures Owned(UpdateAll(m, cfgs))
    decreases |cfgs|
  {
    if cfgs != [] {
      OwnedOne(m, cfgs[0]);
      hide Owned, UpdateOne;
      OwnedAll(UpdateOne(m, cfgs[0]), cfgs[1..]);
    }
  }

  lemma IdsCons(cfgs: seq<Cpe>)
    requires cfgs != []
    ensures Ids(cfgs) == {cfgs[0].id} + Ids(cfgs[1..])
  {
    assert forall c :: c in cfgs <==> c == cfgs[0] || c in cfgs[1..];
  }

  lemma MappedRetain(m: Set, keep: set<string>)
    requires Mapped(m)
    ensures Mapped(Retain(m, keep)) && Retain(m, keep).devices.Keys == m.devices.Keys * keep
  {
    var r := Retain(m, keep);
    var gone := set id | id in m.devices && id !in keep :: m.devices[id];
    forall id | id in r.devices
      ensures r.devices[id] !in gone && r.heap[r.devices[id]] == m.heap[m.devices[id]]
    {
    }
  }

  lemma OwnedRetain(m: Set, keep: set<string>)
    requires Owned(m)
    ensures Owned(Retain(m, keep))
  {
    MappedRetain(m, keep);
    var r := Retain(m, keep);
    var gone := set id | id in m.devices && id !in keep :: m.devices[id];
    hide Mapped;
    forall o | 0 <= o < |r.heap| && !r.heap[o].closed
      ensures r.heap[o].cfg.id in r.devices && r.devices[r.heap[o].cfg.id] == o
    {
      var id := m.heap[o].cfg.id;
      assert id in m.devices && m.devices[id] == o;
      assert id !in keep ==> o in gone;
    }
  }

  /** After any Update the keys are exactly the configured ids, and every id has an
      open device of its own, even when ids repeat. */
  lemma UpdateMapped(m: Set, cfgs: seq<Cpe>)
    requires Mapped(m)
    ensures Mapped(Updated(m, cfgs)) && Updated(m, cfgs).devices.Keys == Ids(cfgs)
  {
    MappedAll(m, cfgs);
    MappedRetain(UpdateAll(m, cfgs), Ids(cfgs));
  }

  /** And if no other device was open before, none is afterwards. */
  lemma UpdateOwned(m: Set, cfgs: seq<Cpe>)
    requires Owned(m)
    ensures Owned(Updated(m, cfgs)) && Updated(m, cfgs).devices.Keys == Ids(cfgs)
  {
    UpdateMapped(m, cfgs);
    OwnedAll(m, cfgs);
    OwnedRetain(UpdateAll(m, cfgs), Ids(cfgs));
  }

  function RunUpdates(m: Set, runs: seq<seq<Cpe>>): (r: Set)
    requires Wf(m)
    ensures Wf(r)
    decreases |runs|
  {
    if runs == [] then m else RunUpdates(Updated(m, runs[0]), runs[1..])
  }

  /** After any sequence of updates each configured id has its one open device. */
  lemma {:induction false} MappedForever(m: Set, runs: seq<seq<Cpe>>)
    requires Mapped(m)
    ensures Mapped(RunUpdates(m, runs))
    ensures runs != [] ==> RunUpdates(m, runs).devices.Keys == Ids(runs[|runs| - 1])
    decreases |runs|
  {
    if runs != [] {
      UpdateMapped(m, runs[0]);
      assert RunUpdates(Updated(m, runs[0]), []) == Updated(m, runs[0]);
      hide Mapped, Updated, Ids;
      MappedForever(Updated(m, runs[0]), runs[1..]);
      assert |runs| > 1 ==> runs[1..][|runs| - 2] == runs[|runs| - 1];
    }
  }

  lemma {:induction false} OwnedForever(m: Set, runs: seq<seq<Cpe>>)
    requires Owned(m)
    ensures Owned(RunUpdates(m, runs))
    decreases |runs|
  {
    if runs != [] {
      UpdateOwned(m, runs[0]);
      hide Owned, Updated;
      OwnedForever(Updated(m, runs[0]), runs[1..]);
    }
  }

  // ---- what counts as a change ----

  /** The set's answer to every section is "nothing changed" exactly when every
      section names a device with the host it has. */
  lemma {:induction false} QuietExact(m: Set, cfgs: seq<Cpe>)
    requires Mapped(m)
    ensures ChangesAll(m, cfgs) == [] <==> forall i :: 0 <= i < |cfgs| ==> Keeps(m, cfgs[i])
    ensures ChangesAll(m, cfgs) == [] ==> UpdateAll(m, cfgs).devices == m.devices
    decreases |cfgs|
  {
    if cfgs != [] {
      var c := cfgs[0];
      var m1 := UpdateOne(m, c);
      MappedOne(m, c);
      if Keeps(m, c) {
        assert forall d: Cpe :: Keeps(m1, d) <==> Keeps(m, d) by { KeepsSame(m, c); }
        QuietExact(m1, cfgs[1..]);
        assert forall i :: 0 <= i < |cfgs[1..]| ==> cfgs[1..][i] == cfgs[i + 1];
        hide Keeps, UpdateOne, Mapped;
        assert (forall i :: 0 <= i < |cfgs| ==> Keeps(m, cfgs[i]))
          <==> (forall i :: 0 <= i < |cfgs[1..]| ==> Keeps(m, cfgs[1..][i])) by {
          if forall i :: 0 <= i < |cfgs[1..]| ==> Keeps(m, cfgs[1..][i]) {
            forall i | 0 <= i < |cfgs| ensures Keeps(m, cfgs[i]) {
              if i > 0 { assert cfgs[1..][i - 1] == cfgs[i]; }
            }
          }
        }
      }
    }
  }

  lemma KeepsSame(m: Set, c: Cpe)
    requires Mapped(m) && Keeps(m, c)
    ensures forall d: Cpe :: Keeps(UpdateOne(m, c), d) <==> Keeps(m, d)
  {
  }

  /** Objects made during an update have numbers past the old store. */
  lemma {:induction false} FreshSurvive(m: Set, cfgs: seq<Cpe>, n: nat, id: string)
    requires Wf(m) && n <= |m.heap| && id in m.devices && m.devices[id] >= n
    ensures id in UpdateAll(m, cfgs).devices && UpdateAll(m, cfgs).devices[id] >= n
    decreases |cfgs|
  {
    if cfgs != [] { FreshSurvive(UpdateOne(m, cfgs[0]), cfgs[1..], n, id); }
  }

  lemma {:induction false} ChangeMeansFresh(m: Set, cfgs: seq<Cpe>, n: nat)
    requires Wf(m) && n <= |m.heap| && ChangesAll(m, cfgs) != []
    ensures exists id :: id in Ids(cfgs) && id in UpdateAll(m, cfgs).devices && UpdateAll(m, cfgs).devices[id] >= n
    decreases |cfgs|
  {
    var c := cfgs[0];
    var m1 := UpdateOne(m, c);
    IdsCons(cfgs);
    if ChangeOne(m, c) != [] {
      assert m1.devices[c.id] == |m.heap|;
      FreshSurvive(m1, cfgs[1..], n, c.id);
      assert c.id in Ids(cfgs);
    } else {
      ChangeMeansFresh(m1, cfgs[1..], n);
    }
  }

  lemma RetainDevices(m: Set, keep: set<string>)
    requires Wf(m)
    ensures Retain(m, keep).devices.Keys == m.devices.Keys * keep
    ensures forall id :: id in m.devices && id in keep ==> Retain(m, keep).devices[id] == m.devices[id]
  {
  }

  lemma QuietMeansSame(m: Set, cfgs: seq<Cpe>)
    requires Mapped(m) && NoChange(m, cfgs)
    ensures Updated(m, cfgs).devices == m.devices
  {
    QuietExact(m, cfgs);
    RetainDevices(UpdateAll(m, cfgs), Ids(cfgs));
    assert forall id :: id in m.devices ==> id in Ids(cfgs) by {
      assert Dropped(m, cfgs) == {};
      assert forall id :: id in m.devices && id !in Ids(cfgs) ==> id in Dropped(m, cfgs);
    }
    hide Mapped, UpdateAll, Retain, ChangesAll, Ids;
    assert Updated(m, cfgs).devices.Keys == m.devices.Keys;
  }

  lemma SameMeansQuiet(m: Set, cfgs: seq<Cpe>)
    requires Mapped(m) && Updated(m, cfgs).devices == m.devices
    ensures NoChange(m, cfgs)
  {
    UpdateMapped(m, cfgs);
    RetainDevices(UpdateAll(m, cfgs), Ids(cfgs));
    assert Wf(m);
    if ChangesAll(m, cfgs) != [] {
      ChangeMeansFresh(m, cfgs, |m.heap|);
    }
  }

  /** The change list is empty exactly when every id still maps to the object it
      mapped to: no device was added, replaced or removed. */
  lemma NoChangeExact(m: Set, cfgs: seq<Cpe>)
    requires Mapped(m)
    ensures NoChange(m, cfgs) <==> Updated(m, cfgs).devices == m.devices
  {
    assert Wf(m);
    hide Mapped, Updated, NoChange;
    if NoChange(m, cfgs) { QuietMeansSame(m, cfgs); }
    if Updated(m, cfgs).devices == m.devices { SameMeansQuiet(m, cfgs); }
  }

  // ---- which objects survive ----

  predicate DistinctIds(cfgs: seq<Cpe>) {
    forall i, j :: 0 <= i < j < |cfgs| ==> cfgs[i].id != cfgs[j].id
  }

  lemma {:induction false} OthersUntouched(m: Set, cfgs: seq<Cpe>, id: string)
    requires Mapped(m) && id !in Ids(cfgs) && id in m.devices
    ensures var u := UpdateAll(m, cfgs);
            id in u.devices && u.devices[id] == m.devices[id] && u.heap[u.devices[id]] == m.heap[m.devices[id]]
    decreases |cfgs|
  {
    if cfgs != [] {
      IdsCons(cfgs);
      MappedOne(m, cfgs[0]);
      OtherUntouched(m, cfgs[0], id);
      hide Mapped, UpdateOne;
      OthersUntouched(UpdateOne(m, cfgs[0]), cfgs[1..], id);
    }
  }

  lemma OtherUntouched(m: Set, c: Cpe, id: string)
    requires Mapped(m) && id != c.id && id in m.devices
    ensures var u := UpdateOne(m, c);
            id in u.devices && u.devices[id] == m.devices[id] && u.heap[u.devices[id]] == m.heap[m.devices[id]]
  {
  }

  lemma OneEntry(m: Set, c: Cpe)
    requires Mapped(m)
    ensures var u := UpdateOne(m, c);
            && c.id in u.devices
            && At(u, c.id) == Settled(c, Keeps(m, c))
            && (c.id in m.devices ==> (u.devices[c.id] == m.devices[c.id] <==> At(m, c.id).cfg.host == c.host))
  {
  }

  /** With distinct ids, every device ends up as its section says,
      and keeps its object exactly when its host did not change. */
  lemma {:induction false} KeepExact(m: Set, cfgs: seq<Cpe>, i: nat)
    requires Mapped(m) && DistinctIds(cfgs) && i < |cfgs|
    ensures var c := cfgs[i];
            var u := UpdateAll(m, cfgs);
            && c.id in u.devices
            && At(u, c.id) == Settled(c, Keeps(m, c))
            && (c.id in m.devices ==> (u.devices[c.id] == m.devices[c.id] <==> At(m, c.id).cfg.host == c.host))
    decreases |cfgs|
  {
    MappedOne(m, cfgs[0]);
    var m1 := UpdateOne(m, cfgs[0]);
    if i == 0 {
      OneEntry(m, cfgs[0]);
      DistinctCons(cfgs);
      hide Mapped, UpdateOne;
      OthersUntouched(m1, cfgs[1..], cfgs[0].id);
    } else {
      if cfgs[i].id in m.devices { OtherUntouched(m, cfgs[0], cfgs[i].id); }
      OneNotIn(m, cfgs[0], cfgs[i].id);
      assert DistinctIds(cfgs[1..]) && cfgs[1..][i - 1] == cfgs[i];
      hide Mapped, UpdateOne, DistinctIds;
      KeepExact(m1, cfgs[1..], i - 1);
    }
  }

  lemma OneNotIn(m: Set, c: Cpe, id: string)
    requires Wf(m) && id != c.id
    ensures id in UpdateOne(m, c).devices <==> id in m.devices
  {
  }

  /** The same for Update as a whole. */
  lemma UpdateKeepsExact(m: Set, cfgs: seq<Cpe>, i: nat)
    requires Mapped(m) && DistinctIds(cfgs) && i < |cfgs|
    ensures var c := cfgs[i];
            var u := Updated(m, cfgs);
            && c.id in u.devices
            && At(u, c.id) == Settled(c, Keeps(m, c))
            && (c.id in m.devices ==> (u.devices[c.id] == m.devices[c.id] <==> At(m, c.id).cfg.host == c.host))
  {
    KeepExact(m, cfgs, i);
    MappedAll(m, cfgs);
    UpdateMapped(m, cfgs);
    assert cfgs[i] in cfgs;
    var u0, u := UpdateAll(m, cfgs), Updated(m, cfgs);
    assert u.devices[cfgs[i].id] == u0.devices[cfgs[i].id];
  }

  // ---- which settings a device ends up with ----

  /** The last section for id. */
  function Last(cfgs: seq<Cpe>, id: string): (c: Cpe)
    requires id in Ids(cfgs)
    ensures c in cfgs && c.id == id
    decreases |cfgs|
  {
    if cfgs[|cfgs| - 1].id == id then cfgs[|cfgs| - 1]
    else LastShrinks(cfgs, id); Last(cfgs[..|cfgs| - 1], id)
  }

  lemma LastShrinks(cfgs: seq<Cpe>, id: string)
    requires id in Ids(cfgs) && cfgs[|cfgs| - 1].id != id
    ensures id in Ids(cfgs[..|cfgs| - 1])
  {
    var c :| c in cfgs && c.id == id;
    var i :| 0 <= i < |cfgs| && cfgs[i] == c;
    assert cfgs[..|cfgs| - 1][i] == c;
  }

  lemma {:induction false} UpdateAllSnoc(m: Set, cfgs: seq<Cpe>)
    requires Wf(m) && cfgs != []
    ensures UpdateAll(m, cfgs) == UpdateOne(UpdateAll(m, cfgs[..|cfgs| - 1]), cfgs[|cfgs| - 1])
    decreases |cfgs|
  {
    if |cfgs| > 1 {
      UpdateAllSnoc(UpdateOne(m, cfgs[0]), cfgs[1..]);
      assert cfgs[1..][..|cfgs| - 2] == cfgs[..|cfgs| - 1][1..];
    } else {
      assert cfgs[1..] == [] && cfgs[..0] == [];
    }
  }

  /** The device is as Update leaves one for this section, kept or made. */
  predicate TakesSection(d: Dev, c: Cpe) {
    d == Settled(c, false) || (d == Settled(c, true) && c.host != [])
  }

  /** Whatever the set was, every configured device ends up as its last section says. */
  lemma {:induction false} LastAfterAll(m: Set, cfgs: seq<Cpe>, id: string)
    requires Mapped(m) && id in Ids(cfgs)
    ensures var u := UpdateAll(m, cfgs);
            id in u.devices && TakesSection(At(u, id), Last(cfgs, id))
    decreases |cfgs|
  {
    var front, c := cfgs[..|cfgs| - 1], cfgs[|cfgs| - 1];
    UpdateAllSnoc(m, cfgs);
    MappedAll(m, front);
    if c.id == id {
      OneEntry(UpdateAll(m, front), c);
    } else {
      LastShrinks(cfgs, id);
      LastAfterAll(m, front, id);
      OtherUntouched(UpdateAll(m, front), c, id);
    }
    hide Mapped, UpdateOne;
  }

  lemma LastAfterUpdate(m: Set, cfgs: seq<Cpe>, id: string)
    requires Mapped(m) && id in Ids(cfgs)
    ensures var u := Updated(m, cfgs);
            id in u.devices && TakesSection(At(u, id), Last(cfgs, id))
  {
    LastAfterAll(m, cfgs, id);
    MappedAll(m, cfgs);
    UpdateMapped(m, cfgs);
    var u0, u := UpdateAll(m, cfgs), Updated(m, cfgs);
    assert u.devices[id] == u0.devices[id];
  }

  lemma UpdatedAt(m: Set, cfgs: seq<Cpe>, id: string)
    requires Mapped(m) && id in Ids(cfgs)
    ensures var u0, u := UpdateAll(m, cfgs), Updated(m, cfgs);
            id in u0.devices && id in u.devices && At(u, id) == At(u0, id)
  {
    MappedAll(m, cfgs);
    UpdateMapped(m, cfgs);
    var u0, u := UpdateAll(m, cfgs), Updated(m, cfgs);
    assert u.devices[id] == u0.devices[id];
  }

  /** The host the last section for id is compared with: that of the section before
      it for the same id, or of the device there at the start; None if there is neither. */
  function HostMet(m: Set, cfgs: seq<Cpe>, id: string): Option<string>
    requires Wf(m) && id in Ids(cfgs)
    decreases |cfgs|
  {
    var front := cfgs[..|cfgs| - 1];
    if cfgs[|cfgs| - 1].id != id then LastShrinks(cfgs, id); HostMet(m, front, id)
    else if id in Ids(front) then Some(Effective(Last(front, id).host))
    else if id in m.devices then Some(At(m, id).cfg.host)
    else None
  }

  lemma KeepsByHost(m: Set, cfgs: seq<Cpe>)
    requires Mapped(m) && cfgs != []
    ensures var front, c := cfgs[..|cfgs| - 1], cfgs[|cfgs| - 1];
            c.id in Ids(cfgs) && (Keeps(UpdateAll(m, front), c) <==> HostMet(m, cfgs, c.id) == Some(c.host))
  {
    var front, c := cfgs[..|cfgs| - 1], cfgs[|cfgs| - 1];
    assert c in cfgs;
    MappedAll(m, front);
    if c.id in Ids(front) {
      LastAfterAll(m, front, c.id);
    } else if c.id in m.devices {
      OthersUntouched(m, front, c.id);
    }
    hide UpdateAll, Mapped, Last;
  }

  lemma {:induction false} SettledAll(m: Set, cfgs: seq<Cpe>, id: string)
    requires Mapped(m) && id in Ids(cfgs)
    ensures var u, c := UpdateAll(m, cfgs), Last(cfgs, id);
            id in u.devices && At(u, id) == Settled(c, HostMet(m, cfgs, id) == Some(c.host))
    decreases |cfgs|
  {
    var front, c := cfgs[..|cfgs| - 1], cfgs[|cfgs| - 1];
    UpdateAllSnoc(m, cfgs);
    MappedAll(m, front);
    if c.id == id {
      KeepsByHost(m, cfgs);
      OneEntry(UpdateAll(m, front), c);
    } else {
      LastShrinks(cfgs, id);
      SettledAll(m, front, id);
      OtherUntouched(UpdateAll(m, front), c, id);
    }
    hide Mapped, UpdateOne, UpdateAll, Keeps, Ids;
  }

  /** Every configured device ends up as its last section says, repeated ids included:
      kept as it stands if the section meets its own host, made anew with the defaults if not. */
  lemma SettledExact(m: Set, cfgs: seq<Cpe>, id: string)
    requires Mapped(m) && id in Ids(cfgs)
    ensures var u, c := Updated(m, cfgs), Last(cfgs, id);
            id in u.devices && At(u, id) == Settled(c, HostMet(m, cfgs, id) == Some(c.host))
  {
    SettledAll(m, cfgs, id);
    UpdatedAt(m, cfgs, id);
    hide Updated, UpdateAll, Mapped, HostMet;
  }

  /** Without a user name in its last section, a device has the default one exactly when
      that section meets another host or none: whoever keeps a device takes it away. */
  lemma DefaultUserExact(m: Set, cfgs: seq<Cpe>, id: string)
    requires Mapped(m) && id in Ids(cfgs) && Last(cfgs, id).username == []
    ensures var u := Updated(m, cfgs);
            id in u.devices
            && (At(u, id).cfg.username == DEFAULT_USER <==> HostMet(m, cfgs, id) != Some(Last(cfgs, id).host))
  {
    SettledExact(m, cfgs, id);
    hide Mapped, Updated, HostMet;
  }

  /** With distinct ids that is: exactly when this Update made the device. */
  lemma DefaultUserDistinct(m: Set, cfgs: seq<Cpe>, i: nat)
    requires Mapped(m) && DistinctIds(cfgs) && i < |cfgs| && cfgs[i].username == []
    ensures var u := Updated(m, cfgs);
            cfgs[i].id in u.devices && (At(u, cfgs[i].id).cfg.username == DEFAULT_USER <==> !Keeps(m, cfgs[i]))
  {
    UpdateKeepsExact(m, cfgs, i);
    hide Mapped, Updated, DistinctIds, Keeps;
  }

  // ---- which changes are reported ----

  /** The report, section by section, by the host each one meets: none, its own, or another. */
  function Report(m: Set, cfgs: seq<Cpe>): seq<Change>
    requires Wf(m)
  {
    if cfgs == [] then []
    else
      var c := cfgs[|cfgs| - 1];
      assert c in cfgs;
      Report(m, cfgs[..|cfgs| - 1]) +
      match HostMet(m, cfgs, c.id) {
        case None => [Added(c.id)]
        case Some(host) => if host == c.host then [] else [HostChanged(c.id)]
      }
  }

  lemma {:induction false} ChangesAllSnoc(m: Set, cfgs: seq<Cpe>)
    requires Wf(m) && cfgs != []
    ensures var front, c := cfgs[..|cfgs| - 1], cfgs[|cfgs| - 1];
            ChangesAll(m, cfgs) == ChangesAll(m, front) + ChangeOne(UpdateAll(m, front), c)
    decreases |cfgs|
  {
    hide UpdateOne, ChangeOne;
    if |cfgs| > 1 {
      ChangesAllSnoc(UpdateOne(m, cfgs[0]), cfgs[1..]);
      assert cfgs[1..][..|cfgs| - 2] == cfgs[..|cfgs| - 1][1..];
    } else {
      assert cfgs[1..] == [] && cfgs[..0] == [];
      assert ChangeOne(m, cfgs[0]) + [] == [] + ChangeOne(m, cfgs[0]);
    }
  }

  /** Every section reports what it meets: an addition, another host, or nothing. */
  lemma {:induction false} ChangesExact(m: Set, cfgs: seq<Cpe>)
    requires Mapped(m)
    ensures ChangesAll(m, cfgs) == Report(m, cfgs)
    decreases |cfgs|
  {
    if cfgs != [] {
      var front, c := cfgs[..|cfgs| - 1], cfgs[|cfgs| - 1];
      assert c in cfgs;
      ChangesExact(m, front);
      ChangesAllSnoc(m, cfgs);
      KeepsByHost(m, cfgs);
      MappedAll(m, front);
      assert c.id in UpdateAll(m, front).devices <==> HostMet(m, cfgs, c.id).Some?;
      hide Mapped, Keeps, UpdateAll, HostMet, Ids;
    }
  }

  lemma OneAdded(v: Set, c: Cpe, id: string)
    requires Wf(v)
    ensures multiset(ChangeOne(v, c))[Added(id)] == if c.id == id && id !in v.devices then 1 else 0
  {
    hide Keeps;
  }

  lemma IdsMore(cfgs: seq<Cpe>, c: Cpe)
    ensures Ids(cfgs + [c]) == Ids(cfgs) + {c.id}
  {
    assert forall d :: d in cfgs + [c] <==> d in cfgs || d == c;
  }

  lemma NothingReported(m: Set)
    requires Wf(m)
    ensures ChangesAll(m, []) == [] && Ids([]) == {}
  {
  }

  lemma CountConcat(a: seq<Change>, b: seq<Change>, x: Change)
    ensures multiset(a + b)[x] == multiset(a)[x] + multiset(b)[x]
  {
  }

  lemma MappedWf(m: Set)
    requires Mapped(m)
    ensures Wf(m)
  {
  }

  /** An id is reported as added once if it is configured and was not there, else never. */
  lemma {:induction false} AddedOnce(m: Set, cfgs: seq<Cpe>, id: string)
    requires Mapped(m)
    ensures multiset(ChangesAll(m, cfgs))[Added(id)] == if id in Ids(cfgs) && id !in m.devices then 1 else 0
    decreases |cfgs|
  {
    hide *;
    MappedWf(m);
    NothingReported(m);
    if cfgs != [] {
      var front, c := cfgs[..|cfgs| - 1], cfgs[|cfgs| - 1];
      AddedOnce(m, front, id);
      ChangesAllSnoc(m, cfgs);
      MappedAll(m, front);
      var v := UpdateAll(m, front);
      CountConcat(ChangesAll(m, front), ChangeOne(v, c), Added(id));
      assert cfgs == front + [c];
      IdsMore(front, c);
      OneAdded(v, c, id);
    }
  }

  // ---- idempotence ----

  /** Every section has a host, and sections that share an id share it. */
  ghost predicate Stable(cfgs: seq<Cpe>) {
    && (forall i :: 0 <= i < |cfgs| ==> cfgs[i].host != [])
    && (forall i, j :: 0 <= i < |cfgs| && 0 <= j < |cfgs| && cfgs[i].id == cfgs[j].id ==> cfgs[i].host == cfgs[j].host)
  }

  /** Updating again with the same sections reports no change exactly when they are
      stable; an empty host, for one, makes every reload replace the device. */
  lemma QuietAgainExact(m: Set, cfgs: seq<Cpe>)
    requires Mapped(m)
    ensures NoChange(Updated(m, cfgs), cfgs) <==> Stable(cfgs)
  {
    var u := Updated(m, cfgs);
    UpdateMapped(m, cfgs);
    QuietExact(u, cfgs);
    forall i | 0 <= i < |cfgs|
      ensures cfgs[i].id in Ids(cfgs)
      ensures Keeps(u, cfgs[i]) <==> cfgs[i].host == Effective(Last(cfgs, cfgs[i].id).host)
    {
      assert cfgs[i] in cfgs;
      LastAfterUpdate(m, cfgs, cfgs[i].id);
    }
    hide Mapped, Updated, ChangesAll;
    if Stable(cfgs) {
      forall i | 0 <= i < |cfgs| ensures Keeps(u, cfgs[i]) {
        assert Last(cfgs, cfgs[i].id) in cfgs;
      }
    }
    if forall i :: 0 <= i < |cfgs| ==> Keeps(u, cfgs[i]) {
      forall i, j | 0 <= i < |cfgs| && 0 <= j < |cfgs| && cfgs[i].id == cfgs[j].id
        ensures cfgs[i].host == cfgs[j].host
      {
        assert Keeps(u, cfgs[i]) && Keeps(u, cfgs[j]);
      }
      forall i | 0 <= i < |cfgs| ensures cfgs[i].host != [] {
        assert Keeps(u, cfgs[i]);
      }
    }
  }

  lemma StableFront(cfgs: seq<Cpe>)
    requires Stable(cfgs) && cfgs != []
    ensures Stable(cfgs[..|cfgs| - 1])
  {
  }

  /** A section that meets the host it names still meets it after earlier sections for its id. */
  lemma {:induction false} HostMetKept(m: Set, cfgs: seq<Cpe>, id: string)
    requires Mapped(m) && Stable(cfgs) && id in Ids(cfgs) && Keeps(m, Last(cfgs, id))
    ensures HostMet(m, cfgs, id) == Some(Last(cfgs, id).host)
    decreases |cfgs|
  {
    var front, c := cfgs[..|cfgs| - 1], cfgs[|cfgs| - 1];
    if c.id != id {
      LastShrinks(cfgs, id);
      StableFront(cfgs);
      HostMetKept(m, front, id);
    } else if id in Ids(front) {
      var d := Last(front, id);
      var i :| 0 <= i < |front| && front[i] == d;
      assert cfgs[i] == d && cfgs[|cfgs| - 1] == c;
    }
  }

  /** Quiet sections touch only the objects they name. */
  lemma {:induction false} QuietHeap(m: Set, cfgs: seq<Cpe>, o: Obj)
    requires Mapped(m) && ChangesAll(m, cfgs) == [] && o < |m.heap|
    requires forall id :: id in m.devices ==> m.devices[id] != o
    ensures var u := UpdateAll(m, cfgs);
            |u.heap| == |m.heap| && u.heap[o] == m.heap[o]
    decreases |cfgs|
  {
    if cfgs != [] {
      MappedOne(m, cfgs[0]);
      assert Keeps(m, cfgs[0]);
      assert UpdateOne(m, cfgs[0]).devices == m.devices;
      hide Mapped, Keeps;
      QuietHeap(UpdateOne(m, cfgs[0]), cfgs[1..], o);
    }
  }

  lemma {:induction false} QuietSize(m: Set, cfgs: seq<Cpe>)
    requires Mapped(m) && ChangesAll(m, cfgs) == []
    ensures |UpdateAll(m, cfgs).heap| == |m.heap|
    decreases |cfgs|
  {
    if cfgs != [] {
      MappedOne(m, cfgs[0]);
      hide Mapped;
      QuietSize(UpdateOne(m, cfgs[0]), cfgs[1..]);
    }
  }

  /** A quiet Update leaves every object no id maps to as it is. */
  lemma QuietOthers(m: Set, cfgs: seq<Cpe>, o: Obj)
    requires Mapped(m) && NoChange(m, cfgs) && o < |m.heap|
    requires forall id :: id in m.devices ==> m.devices[id] != o
    ensures |Updated(m, cfgs).heap| == |m.heap| && Updated(m, cfgs).heap[o] == m.heap[o]
  {
    QuietHeap(m, cfgs, o);
    QuietExact(m, cfgs);
    var u := UpdateAll(m, cfgs);
    hide UpdateAll, ChangesAll, Mapped;
    assert u.devices == m.devices;
  }

  /** For every id the last section names a user, or meets its own host and keeps the device. */
  ghost predicate UsersSettled(m: Set, cfgs: seq<Cpe>)
    requires Wf(m)
  {
    forall id :: id in Ids(cfgs) ==> Last(cfgs, id).username != [] || HostMet(m, cfgs, id) == Some(Last(cfgs, id).host)
  }

  lemma SecondAt(m: Set, cfgs: seq<Cpe>, id: string)
    requires Mapped(m) && Stable(cfgs) && id in Ids(cfgs)
    ensures var u := Updated(m, cfgs);
            var w := Updated(u, cfgs);
            && id in u.devices && id in w.devices
            && At(u, id) == Settled(Last(cfgs, id), HostMet(m, cfgs, id) == Some(Last(cfgs, id).host))
            && At(w, id) == Settled(Last(cfgs, id), true)
  {
    var u := Updated(m, cfgs);
    UpdateMapped(m, cfgs);
    SettledExact(m, cfgs, id);
    SettledExact(u, cfgs, id);
    QuietAgainExact(m, cfgs);
    QuietExact(u, cfgs);
    var i :| 0 <= i < |cfgs| && cfgs[i] == Last(cfgs, id);
    hide Updated, UpdateAll, ChangesAll, Mapped, Stable, Keeps, HostMet;
    assert Keeps(u, cfgs[i]);
    HostMetKept(u, cfgs, id);
  }

  /** A second Update changes nothing at all exactly when the sections are stable and
      every id either names a user or had its device kept by the first: a device that
      was just made with the default user name loses it to the second. */
  lemma IdempotentExact(m: Set, cfgs: seq<Cpe>)
    requires Mapped(m)
    ensures Updated(Updated(m, cfgs), cfgs) == Updated(m, cfgs) <==> Stable(cfgs) && UsersSettled(m, cfgs)
  {
    var u := Updated(m, cfgs);
    var w := Updated(u, cfgs);
    UpdateMapped(m, cfgs);
    NoChangeExact(u, cfgs);
    QuietAgainExact(m, cfgs);
    if Stable(cfgs) {
      forall id | id in Ids(cfgs)
        ensures id in u.devices && id in w.devices
        ensures At(w, id) == At(u, id) <==>
          Last(cfgs, id).username != [] || HostMet(m, cfgs, id) == Some(Last(cfgs, id).host)
      {
        SecondAt(m, cfgs, id);
      }
      SameHeap(u, cfgs);
      hide Updated, Stable, Mapped, NoChange, HostMet;
    }
  }

  lemma SameHeap(u: Set, cfgs: seq<Cpe>)
    requires Mapped(u) && NoChange(u, cfgs) && u.devices.Keys == Ids(cfgs)
    ensures var w := Updated(u, cfgs);
            w == u <==> forall id :: id in Ids(cfgs) ==> id in w.devices && At(w, id) == At(u, id)
  {
    var w := Updated(u, cfgs);
    NoChangeExact(u, cfgs);
    QuietSize(u, cfgs);
    assert |w.heap| == |u.heap|;
    forall o | 0 <= o < |u.heap| && forall id :: id in u.devices ==> u.devices[id] != o
      ensures w.heap[o] == u.heap[o]
    {
      QuietOthers(u, cfgs, o);
    }
    hide Updated, NoChange, Mapped;
    if forall id :: id in Ids(cfgs) ==> id in w.devices && At(w, id) == At(u, id) {
      forall o | 0 <= o < |u.heap| ensures w.heap[o] == u.heap[o] {
        if id :| id in u.devices && u.devices[id] == o { assert At(w, id) == At(u, id); }
      }
    }
  }

  // ---- start-up ----

  /** The section as NewManager uses it: a nameless one gets its position as id. */
  function Named(cfgs: seq<Cpe>): (r: seq<Cpe>)
    ensures |r| == |cfgs|
  {
    seq(|cfgs|, i requires 0 <= i < |cfgs| =>
          if cfgs[i].id == [] then cfgs[i].(id := "cpe-" + PrintNat(i)) else cfgs[i])
  }

  /** A nameless section at position i becomes cpe-i in decimal, so no two of them share
      an id; everything else stays as it stands. */
  lemma NamelessByPosition(cfgs: seq<Cpe>, i: nat, j: nat)
    requires i < |cfgs| && j < |cfgs|
    ensures Named(cfgs)[i] == cfgs[i].(id := Named(cfgs)[i].id)
    ensures cfgs[i].id != "" ==> Named(cfgs)[i] == cfgs[i]
    ensures cfgs[i].id == "" ==>
      exists d :: Named(cfgs)[i].id == "cpe-" + d && AllDigits(d) && Decimal(d) == i
    ensures cfgs[i].id == cfgs[j].id == "" && i != j ==> Named(cfgs)[i].id != Named(cfgs)[j].id
  {
    DecimalPrintNat(i);
    DecimalPrintNat(j);
    var a, b := "cpe-" + PrintNat(i), "cpe-" + PrintNat(j);
    assert a[4..] == PrintNat(i) && b[4..] == PrintNat(j);
    hide PrintNat, Decimal;
  }

  function CreateAll(m: Set, cfgs: seq<Cpe>): Set
    decreases |cfgs|
  {
    if cfgs == [] then m else CreateAll(Create(m, cfgs[0]), cfgs[1..])
  }

  const EMPTY := Set(map[], [])

  lemma {:induction false} CreatedWf(m: Set, cfgs: seq<Cpe>)
    requires Wf(m)
    ensures Wf(CreateAll(m, cfgs))
    decreases |cfgs|
  {
    if cfgs != [] { CreatedWf(Create(m, cfgs[0]), cfgs[1..]); }
  }

  lemma OwnedCreate(m: Set, c: Cpe)
    requires Owned(m)
    ensures Owned(Create(m, c)) <==> c.id !in m.devices
  {
    var r := Create(m, c);
    if c.id in m.devices {
      var o := m.devices[c.id];
      assert !r.heap[o].closed && r.heap[o].cfg.id == c.id && r.devices[c.id] != o;
    } else {
      OwnedOne(m, c);
    }
  }

  /** An object that is open but no longer mapped stays so. */
  ghost predicate Leaked(m: Set, o: Obj) {
    o < |m.heap| && !m.heap[o].closed && forall id :: id in m.devices ==> m.devices[id] != o
  }

  lemma {:induction false} LeakStays(m: Set, cfgs: seq<Cpe>, o: Obj)
    requires Leaked(m, o)
    ensures Leaked(CreateAll(m, cfgs), o)
    decreases |cfgs|
  {
    if cfgs != [] { LeakStays(Create(m, cfgs[0]), cfgs[1..], o); }
  }

  lemma {:induction false} CreateAllOwned(m: Set, cfgs: seq<Cpe>)
    requires Owned(m)
    ensures Owned(CreateAll(m, cfgs)) <==> DistinctIds(cfgs) && Ids(cfgs) !! m.devices.Keys
    decreases |cfgs|
  {
    if cfgs != [] {
      var c, rest := cfgs[0], cfgs[1..];
      OwnedCreate(m, c);
      IdsCons(cfgs);
      if c.id in m.devices {
        var o := m.devices[c.id];
        assert Leaked(Create(m, c), o) by {
          assert forall id :: id in m.devices && id != c.id ==> m.devices[id] != o;
        }
        LeakStays(Create(m, c), rest, o);
        assert !Owned(CreateAll(m, cfgs));
      } else {
        CreateAllOwned(Create(m, c), rest);
        DistinctCons(cfgs);
        hide Owned, CreateAll, DistinctIds, Ids;
        assert CreateAll(m, cfgs) == CreateAll(Create(m, c), rest) by { CreateAllCons(m, cfgs); }
      }
    } else {
      assert Ids(cfgs) == {};
    }
  }

  lemma CreateAllCons(m: Set, cfgs: seq<Cpe>)
    requires cfgs != []
    ensures CreateAll(m, cfgs) == CreateAll(Create(m, cfgs[0]), cfgs[1..])
  {
  }

  lemma DistinctCons(cfgs: seq<Cpe>)
    requires cfgs != []
    ensures DistinctIds(cfgs) <==> DistinctIds(cfgs[1..]) && cfgs[0].id !in Ids(cfgs[1..])
  {
    if DistinctIds(cfgs[1..]) && cfgs[0].id !in Ids(cfgs[1..]) {
      forall i, j | 0 <= i < j < |cfgs| ensures cfgs[i].id != cfgs[j].id {
        assert cfgs[j] == cfgs[1..][j - 1] && cfgs[1..][j - 1] in cfgs[1..];
        if i > 0 { assert cfgs[i] == cfgs[1..][i - 1]; }
      }
    }
  }

  /** A new manager owns all its open devices exactly when the named sections have
      distinct ids; otherwise an open device is left that no one will close. */
  lemma StartOwnedExact(cfgs: seq<Cpe>)
    ensures Owned(CreateAll(EMPTY, Named(cfgs))) <==> DistinctIds(Named(cfgs))
  {
    CreateAllOwned(EMPTY, Named(cfgs));
  }

  lemma {:induction false} CreatedMapped(m: Set, cfgs: seq<Cpe>)
    requires Mapped(m)
    ensures Mapped(CreateAll(m, cfgs))
    decreases |cfgs|
  {
    if cfgs != [] {
      CreateKeepsMapped(m, cfgs[0]);
      hide Mapped;
      CreatedMapped(Create(m, cfgs[0]), cfgs[1..]);
    }
  }

  lemma CreateKeepsMapped(m: Set, c: Cpe)
    requires Mapped(m)
    ensures Mapped(Create(m, c))
  {
    hide Effective;
  }

  lemma UnownedLeaks(m: Set)
    requires Mapped(m) && !Owned(m)
    ensures exists o :: Leaked(m, o)
  {
    var o :| 0 <= o < |m.heap| && !m.heap[o].closed
             && !(m.heap[o].cfg.id in m.devices && m.devices[m.heap[o].cfg.id] == o);
    assert Leaked(m, o);
  }

  lemma LeakOne(m: Set, c: Cpe, o: Obj)
    requires Mapped(m) && Leaked(m, o)
    ensures Leaked(UpdateOne(m, c), o)
  {
  }

  lemma {:induction false} LeakAll(m: Set, cfgs: seq<Cpe>, o: Obj)
    requires Mapped(m) && Leaked(m, o)
    ensures Leaked(UpdateAll(m, cfgs), o)
    decreases |cfgs|
  {
    if cfgs != [] {
      MappedOne(m, cfgs[0]);
      LeakOne(m, cfgs[0], o);
      hide Mapped, Leaked, UpdateOne;
      LeakAll(UpdateOne(m, cfgs[0]), cfgs[1..], o);
    }
  }

  lemma LeakUpdate(m: Set, cfgs: seq<Cpe>, o: Obj)
    requires Mapped(m) && Leaked(m, o)
    ensures Leaked(Updated(m, cfgs), o)
  {
    LeakAll(m, cfgs, o);
    MappedAll(m, cfgs);
    hide UpdateAll;
  }

  lemma {:induction false} LeakForever(m: Set, runs: seq<seq<Cpe>>, o: Obj)
    requires Mapped(m) && Leaked(m, o)
    ensures Leaked(RunUpdates(m, runs), o)
    decreases |runs|
  {
    if runs != [] {
      UpdateMapped(m, runs[0]);
      LeakUpdate(m, runs[0], o);
      hide Mapped, Leaked, Updated;
      LeakForever(Updated(m, runs[0]), runs[1..], o);
    }
  }

  /** After start-up and any updates the open devices are exactly the mapped ones, if and
      only if the sections at start-up had distinct ids: what is lost there is never closed. */
  lemma OwnedExact(cfgs: seq<Cpe>, runs: seq<seq<Cpe>>)
    ensures var m := CreateAll(EMPTY, Named(cfgs));
            Mapped(m) && (Owned(RunUpdates(m, runs)) <==> DistinctIds(Named(cfgs)))
  {
    var m := CreateAll(EMPTY, Named(cfgs));
    StartOwnedExact(cfgs);
    CreatedMapped(EMPTY, Named(cfgs));
    if Owned(m) {
      OwnedForever(m, runs);
    } else {
      UnownedLeaks(m);
      var o :| Leaked(m, o);
      LeakForever(m, runs, o);
    }
    hide RunUpdates, CreateAll, Named, DistinctIds;
  }

  // ---- removals, one at a time ----

  /** One Removed entry for every id, and nothing else. */
  ghost predicate RemovalsOf(removals: seq<Change>, ids: set<string>) {
    && (forall i :: 0 <= i < |removals| ==> removals[i].Removed? && removals[i].id in ids)
    && (forall id :: id in ids ==> Removed(id) in removals)
    && |removals| == |ids|
  }

  lemma NoRemovals(removals: seq<Change>, ids: set<string>)
    requires RemovalsOf(removals, ids)
    ensures removals == [] <==> ids == {}
  {
  }

  lemma RemovalsMore(removals: seq<Change>, ids: set<string>, id: string)
    requires RemovalsOf(removals, ids) && id !in ids
    ensures RemovalsOf(removals + [Removed(id)], ids + {id})
  {
    assert forall ch :: ch in removals + [Removed(id)] <==> ch in removals || ch == Removed(id);
  }

  function DropOne(m: Set, id: string): Set
    requires Wf(m) && id in m.devices
  {
    var o := m.devices[id];
    Set(m.devices - {id}, m.heap[o := m.heap[o].(closed := true)])
  }

  lemma AllStep(m: Set, cfgs: seq<Cpe>, i: nat)
    requires Wf(m) && i < |cfgs|
    ensures UpdateAll(m, cfgs[i..]) == UpdateAll(UpdateOne(m, cfgs[i]), cfgs[i + 1..])
    ensures ChangesAll(m, cfgs[i..]) == ChangeOne(m, cfgs[i]) + ChangesAll(UpdateOne(m, cfgs[i]), cfgs[i + 1..])
  {
    assert cfgs[i..][0] == cfgs[i] && cfgs[i..][1..] == cfgs[i + 1..];
  }

  lemma AllDone(m: Set, cfgs: seq<Cpe>)
    requires Wf(m)
    ensures UpdateAll(m, cfgs[|cfgs|..]) == m && ChangesAll(m, cfgs[|cfgs|..]) == []
  {
  }

  lemma RetainAll(m: Set)
    requires Wf(m)
    ensures Retain(m, m.devices.Keys) == m
  {
    var r := Retain(m, m.devices.Keys);
    assert r.devices == m.devices;
    assert r.heap == m.heap;
  }

  lemma RetainSame(m: Set, a: set<string>, b: set<string>)
    requires Wf(m) && m.devices.Keys * a == m.devices.Keys * b
    ensures Retain(m, a) == Retain(m, b)
  {
    assert forall id :: id in m.devices ==>
      (id in a <==> id in m.devices.Keys * a) && (id in b <==> id in m.devices.Keys * b);
    assert Retain(m, a).devices == Retain(m, b).devices;
    assert Retain(m, a).heap == Retain(m, b).heap;
  }

  lemma RetainStep(m: Set, keep: set<string>, id: string)
    requires Mapped(m) && id in m.devices && id in keep
    ensures Wf(Retain(m, keep)) && id in Retain(m, keep).devices
    ensures DropOne(Retain(m, keep), id) == Retain(m, keep - {id})
  {
    var a, b := DropOne(Retain(m, keep), id), Retain(m, keep - {id});
    assert a.devices == b.devices;
    var gone := set x | x in m.devices && x !in keep :: m.devices[x];
    var gone' := set x | x in m.devices && x !in keep - {id} :: m.devices[x];
    assert gone' == gone + {m.devices[id]};
    assert a.heap == b.heap;
  }

  lemma IdsSnoc(cfgs: seq<Cpe>, i: nat)
    requires i < |cfgs|
    ensures Ids(cfgs[..i + 1]) == Ids(cfgs[..i]) + {cfgs[i].id}
  {
    assert cfgs[..i + 1] == cfgs[..i] + [cfgs[i]];
    assert forall c :: c in cfgs[..i + 1] <==> c in cfgs[..i] || c == cfgs[i];
  }

  /** Where the loop of NewManager stands after i sections. */
  ghost predicate Creating(v: Set, cfgs: seq<Cpe>, i: nat) {
    i <= |cfgs| && CreateAll(v, Named(cfgs)[i..]) == CreateAll(EMPTY, Named(cfgs))
  }

  lemma CreatingStart(cfgs: seq<Cpe>)
    ensures Creating(EMPTY, cfgs, 0)
  {
    assert Named(cfgs)[0..] == Named(cfgs);
  }

  lemma CreatingStep(v: Set, cfgs: seq<Cpe>, i: nat)
    requires Creating(v, cfgs, i) && i < |cfgs|
    ensures var c := cfgs[i];
            Creating(Create(v, if c.id == [] then c.(id := "cpe-" + PrintNat(i)) else c), cfgs, i + 1)
  {
    var named := Named(cfgs);
    assert named[i..][0] == named[i] && named[i..][1..] == named[i + 1..];
  }

  lemma CreatingDone(v: Set, cfgs: seq<Cpe>)
    requires Creating(v, cfgs, |cfgs|)
    ensures v == CreateAll(EMPTY, Named(cfgs))
  {
  }

  /** Where the second loop of Update stands with todo still to close. */
  ghost predicate Partway(v: Set, m: Set, seen: set<string>, todo: set<string>, removals: seq<Change>) {
    && Mapped(m)
    && todo <= m.devices.Keys - seen
    && v == Retain(m, seen + todo)
    && RemovalsOf(removals, m.devices.Keys - seen - todo)
  }

  lemma PartwayStart(m: Set, seen: set<string>)
    requires Mapped(m)
    ensures Partway(m, m, seen, m.devices.Keys - seen, [])
  {
    var todo := m.devices.Keys - seen;
    RetainAll(m);
    RetainSame(m, m.devices.Keys, seen + todo);
    assert m.devices.Keys - seen - todo == {};
  }

  lemma PartwayStep(v: Set, m: Set, seen: set<string>, todo: set<string>, removals: seq<Change>, id: string)
    requires Partway(v, m, seen, todo, removals) && id in todo
    ensures Wf(v) && id in v.devices
    ensures Partway(DropOne(v, id), m, seen, todo - {id}, removals + [Removed(id)])
  {
    var keys := m.devices.Keys;
    hide Retain, RemovalsOf, Mapped, DropOne;
    MoveOne(keys, seen, todo, id);
    RetainStep(m, seen + todo, id);
    RemovalsMore(removals, keys - seen - todo, id);
  }

  lemma MoveOne(keys: set<string>, seen: set<string>, todo: set<string>, id: string)
    requires todo <= keys - seen && id in todo
    ensures id in keys && id in seen + todo && id !in keys - seen - todo
    ensures seen + todo - {id} == seen + (todo - {id})
    ensures keys - seen - todo + {id} == keys - seen - (todo - {id})
    ensures todo - {id} <= keys - seen
  {
  }

  lemma PartwayDone(v: Set, m: Set, seen: set<string>, removals: seq<Change>)
    requires Partway(v, m, seen, {}, removals)
    ensures Wf(m) && v == Retain(m, seen) && RemovalsOf(removals, m.devices.Keys - seen)
  {
    assert seen + {} == seen;
    assert m.devices.Keys - seen - {} == m.devices.Keys - seen;
  }

  /** Where the first loop of Update stands after i sections. */
  ghost predicate Reconciling(v: Set, m: Set, cfgs: seq<Cpe>, i: nat, changes: seq<Change>, seen: set<string>) {
    && Wf(m) && Wf(v) && i <= |cfgs|
    && UpdateAll(v, cfgs[i..]) == UpdateAll(m, cfgs)
    && changes + ChangesAll(v, cfgs[i..]) == ChangesAll(m, cfgs)
    && seen == Ids(cfgs[..i])
  }

  lemma ReconcilingStart(m: Set, cfgs: seq<Cpe>)
    requires Wf(m)
    ensures Reconciling(m, m, cfgs, 0, [], {})
  {
    assert cfgs[0..] == cfgs;
  }

  lemma ReconcilingStep(v: Set, m: Set, cfgs: seq<Cpe>, i: nat, changes: seq<Change>, seen: set<string>)
    requires Reconciling(v, m, cfgs, i, changes, seen) && i < |cfgs|
    ensures Wf(v)
    ensures Reconciling(UpdateOne(v, cfgs[i]), m, cfgs, i + 1, changes + ChangeOne(v, cfgs[i]), seen + {cfgs[i].id})
  {
    AllStep(v, cfgs, i);
    IdsSnoc(cfgs, i);
    hide UpdateAll, UpdateOne, ChangesAll, ChangeOne, Ids;
    var rest := ChangesAll(UpdateOne(v, cfgs[i]), cfgs[i + 1..]);
    assert changes + (ChangeOne(v, cfgs[i]) + rest) == changes + ChangeOne(v, cfgs[i]) + rest;
  }

  lemma ReconcilingDone(v: Set, m: Set, cfgs: seq<Cpe>, changes: seq<Change>, seen: set<string>)
    requires Reconciling(v, m, cfgs, |cfgs|, changes, seen)
    ensures Wf(m) && v == UpdateAll(m, cfgs) && changes == ChangesAll(m, cfgs) && seen == Ids(cfgs)
  {
    AllDone(v, cfgs);
    assert cfgs[..|cfgs|] == cfgs;
  }

  /** What the two loops of Update amount to. */
  lemma UpdateDone(m: Set, cfgs: seq<Cpe>, changes: seq<Change>, removals: seq<Change>)
    requires Mapped(m) && changes == ChangesAll(m, cfgs)
    requires RemovalsOf(removals, UpdateAll(m, cfgs).devices.Keys - Ids(cfgs))
    ensures Retain(UpdateAll(m, cfgs), Ids(cfgs)) == Updated(m, cfgs)
    ensures changes <= changes + removals && (changes + removals)[|changes|..] == removals
    ensures RemovalsOf(removals, Dropped(m, cfgs))
    ensures changes + removals == [] <==> NoChange(m, cfgs)
  {
    assert Updated(m, cfgs) == Retain(UpdateAll(m, cfgs), Ids(cfgs));
    KeysDropped(m, cfgs);
    assert NoChange(m, cfgs) <==> changes == [] && Dropped(m, cfgs) == {};
    hide *;
    NoRemovals(removals, Dropped(m, cfgs));
    assert (changes + removals)[|changes|..] == removals;
  }

  lemma KeysDropped(m: Set, cfgs: seq<Cpe>)
    requires Mapped(m)
    ensures UpdateAll(m, cfgs).devices.Keys - Ids(cfgs) == Dropped(m, cfgs)
  {
    MappedAll(m, cfgs);
    hide Mapped, UpdateAll, Ids;
  }

  // ---- the manager object ----

  class Manager {
    var devices: map<string, Obj>
    var heap: seq<Dev>

    function View(): Set
      reads this
    {
      Set(devices, heap)
    }

    /** NewManager */
    constructor (cfgs: seq<Cpe>)
      ensures View() == CreateAll(EMPTY, Named(cfgs))
    {
      devices, heap := map[], [];
      new;
      CreatingStart(cfgs);
      assert Creating(View(), cfgs, 0);
      hide *;
      for i := 0 to |cfgs|
        invariant Creating(View(), cfgs, i)
      {
        var c := cfgs[i];
        if c.id == [] {
          c := c.(id := "cpe-" + PrintNat(i));
        }
        CreatingStep(View(), cfgs, i);
        AddNew(c);
      }
      CreatingDone(View(), cfgs);
    }

    /** New, and the entry in the map. */
    method AddNew(c: Cpe)
      modifies this
      ensures View() == Create(old(View()), c)
    {
      heap := heap + [NewDevice(c)];
      devices := devices[c.id := |heap| - 1];
    }

    /** The body of Update's first loop. */
    method Reconcile(c: Cpe, changes: seq<Change>) returns (changes': seq<Change>)
      requires Wf(View())
      modifies this
      ensures View() == UpdateOne(old(View()), c)
      ensures changes' == changes + ChangeOne(old(View()), c)
    {
      changes' := changes;
      if c.id in devices {
        var o := devices[c.id];
        if heap[o].cfg.host != c.host {
          changes' := changes' + [HostChanged(c.id)];
          heap := heap[o := Dev(c, true)];
          AddNew(c);
        } else {
          heap := heap[o := heap[o].(cfg := c)];
        }
      } else {
        AddNew(c);
        changes' := changes' + [Added(c.id)];
      }
    }

    /** Update; the removals come last, in no particular order. */
    method Update(cfgs: seq<Cpe>) returns (changes: seq<Change>)
      requires Mapped(View())
      modifies this
      ensures View() == Updated(old(View()), cfgs)
      ensures ChangesAll(old(View()), cfgs) <= changes
      ensures RemovalsOf(changes[|ChangesAll(old(View()), cfgs)|..], Dropped(old(View()), cfgs))
      ensures changes == [] <==> NoChange(old(View()), cfgs)
    {
      ghost var before := View();
      var seen;
      MappedAll(before, cfgs);
      assert Wf(before);
      hide *;
      changes, seen := ReconcileAll(cfgs);
      var removals := Remove(seen);
      UpdateDone(before, cfgs, changes, removals);
      changes := changes + removals;
    }

    /** The first loop of Update. */
    method ReconcileAll(cfgs: seq<Cpe>) returns (changes: seq<Change>, seen: set<string>)
      requires Wf(View())
      modifies this
      ensures View() == UpdateAll(old(View()), cfgs)
      ensures changes == ChangesAll(old(View()), cfgs)
      ensures seen == Ids(cfgs)
    {
      ghost var m := View();
      changes, seen := [], {};
      ReconcilingStart(m, cfgs);
      assert Wf(m);
      hide *;
      for i := 0 to |cfgs|
        invariant Wf(View()) && Reconciling(View(), m, cfgs, i, changes, seen)
      {
        ReconcilingStep(View(), m, cfgs, i, changes, seen);
        changes := Reconcile(cfgs[i], changes);
        seen := seen + {cfgs[i].id};
      }
      ReconcilingDone(View(), m, cfgs, changes, seen);
    }

    /** The body of Update's second loop. */
    method CloseAndForget(id: string)
      requires Wf(View()) && id in devices
      modifies this
      ensures View() == DropOne(old(View()), id)
    {
      var o := devices[id];
      heap := heap[o := heap[o].(closed := true)];
      devices := devices - {id};
    }

    /** The second loop of Update. */
    method Remove(seen: set<string>) returns (removals: seq<Change>)
      requires Mapped(View())
      modifies this
      ensures View() == Retain(old(View()), seen)
      ensures RemovalsOf(removals, old(View()).devices.Keys - seen)
    {
      removals := [];
      ghost var m := View();
      var todo := devices.Keys - seen;
      PartwayStart(m, seen);
      hide *;
      while todo != {}
        invariant Partway(View(), m, seen, todo, removals)
      {
        var id :| id in todo;
        PartwayStep(View(), m, seen, todo, removals, id);
        CloseAndForget(id);
        removals, todo := removals + [Removed(id)], todo - {id};
      }
      PartwayDone(View(), m, seen, removals);
    }
  }
}
