/** Start-up and reload: which device objects the poll loops, the SMS syncers and
    the API's pause controls hold.  A loop is represented by the object it was
    made for. */
module AppReload {
  import opened Common
  import opened DeviceManager

  datatype App = App(
    cfg: seq<Cpe>,
    mgr: Set,
    pollers: set<Obj>,
    syncers: set<Obj>,
    controls: set<(string, Obj)>,   // the API's poller for each device id
    dbOpen: bool)

  /** Manager.Enabled */
  function Enabled(m: Set): (r: set<Obj>)
    requires Wf(m)
    ensures forall o :: o in r ==> o < |m.heap|
  {
    set id | id in m.devices && At(m, id).cfg.enabled :: m.devices[id]
  }

  /** pollersByID */
  function ById(m: Set, pollers: set<Obj>): set<(string, Obj)>
    requires forall o :: o in pollers ==> o < |m.heap|
  {
    set o | o in pollers :: (m.heap[o].cfg.id, o)
  }

  /** Every loop made anew; without a database no syncer is. */
  function Rebuilt(a: App): App
    requires Wf(a.mgr)
  {
    a.(pollers := Enabled(a.mgr),
       syncers := if a.dbOpen then Enabled(a.mgr) else {},
       controls := ById(a.mgr, Enabled(a.mgr)))
  }

  function Started(cfgs: seq<Cpe>, dbOpen: bool): (r: App)
    ensures Wf(r.mgr)
  {
    CreatedWf(EMPTY, Named(cfgs));
    Rebuilt(App(cfgs, CreateAll(EMPTY, Named(cfgs)), {}, {}, {}, dbOpen))
  }

  /** A reload; None is a configuration that cannot be loaded. */
  function Reloaded(a: App, load: Option<seq<Cpe>>): (r: App)
    requires Wf(a.mgr)
    ensures Wf(r.mgr)
  {
    match load
    case None => a
    case Some(cfgs) =>
      var b := a.(cfg := cfgs, mgr := Updated(a.mgr, cfgs));
      if NoChange(a.mgr, cfgs) then b else Rebuilt(b)
  }

  /** The object is open, and the manager maps its id to it. */
  predicate Current(m: Set, o: Obj) {
    o < |m.heap| && !m.heap[o].closed && m.heap[o].cfg.id in m.devices && m.devices[m.heap[o].cfg.id] == o
  }

  /** Every loop and every pause control holds the object its id maps to. */
  ghost predicate Live(a: App) {
    && Mapped(a.mgr)
    && (forall o :: o in a.pollers || o in a.syncers ==> Current(a.mgr, o))
    && a.controls == ById(a.mgr, a.pollers)
    && (!a.dbOpen ==> a.syncers == {})
    && (a.dbOpen ==> a.syncers == a.pollers)
  }

  lemma EnabledCurrent(m: Set)
    requires Mapped(m)
    ensures forall o :: o in Enabled(m) ==> Current(m, o)
  {
  }

  lemma RebuiltLive(a: App)
    requires Mapped(a.mgr)
    ensures Live(Rebuilt(a))
  {
    EnabledCurrent(a.mgr);
  }

  /** With no change in the list, every object stays current under its id. */
  lemma StaysCurrent(m: Set, cfgs: seq<Cpe>, o: Obj)
    requires Mapped(m) && Current(m, o) && NoChange(m, cfgs)
    ensures Current(Updated(m, cfgs), o) && Updated(m, cfgs).heap[o].cfg.id == m.heap[o].cfg.id
  {
    NoChangeExact(m, cfgs);
    UpdateMapped(m, cfgs);
    hide Updated, NoChange;
    var id := m.heap[o].cfg.id;
    assert Updated(m, cfgs).devices[id] == o;
  }

  /** A reload leaves no loop on a device that was replaced or removed. */
  lemma ReloadLive(a: App, load: Option<seq<Cpe>>)
    requires Live(a)
    ensures Live(Reloaded(a, load))
  {
    if load.Some? {
      var cfgs := load.value;
      var b := a.(cfg := cfgs, mgr := Updated(a.mgr, cfgs));
      UpdateMapped(a.mgr, cfgs);
      if NoChange(a.mgr, cfgs) {
        forall o | o in a.pollers || o in a.syncers
          ensures Current(b.mgr, o) && b.mgr.heap[o].cfg.id == a.mgr.heap[o].cfg.id
        {
          StaysCurrent(a.mgr, cfgs, o);
        }
        hide Mapped, Updated, NoChange, Current;
        SameControls(a, b.mgr);
      } else {
        RebuiltLive(b);
        hide Updated;
      }
    }
  }

  lemma SameControls(a: App, m: Set)
    requires forall o :: o in a.pollers ==>
      Current(a.mgr, o) && Current(m, o) && m.heap[o].cfg.id == a.mgr.heap[o].cfg.id
    ensures forall o :: o in a.pollers ==> o < |m.heap| && o < |a.mgr.heap|
    ensures ById(m, a.pollers) == ById(a.mgr, a.pollers)
  {
  }

  function Reloads(a: App, loads: seq<Option<seq<Cpe>>>): (r: App)
    requires Wf(a.mgr)
    ensures Wf(r.mgr)
    decreases |loads|
  {
    if loads == [] then a else Reloads(Reloaded(a, loads[0]), loads[1..])
  }

  /** After any reloads, successful or not, no loop is left on a device the manager
      has closed, and no two loops of a kind share a device id. */
  lemma {:induction false} LoopsStayLive(a: App, loads: seq<Option<seq<Cpe>>>)
    requires Live(a)
    ensures Live(Reloads(a, loads))
    decreases |loads|
  {
    if loads != [] {
      ReloadLive(a, loads[0]);
      hide Live, Reloaded;
      LoopsStayLive(Reloaded(a, loads[0]), loads[1..]);
    }
  }

  /** Start-up leaves every loop on the open device its id maps to, even when ids repeat. */
  lemma StartLive(cfgs: seq<Cpe>, dbOpen: bool)
    ensures Live(Started(cfgs, dbOpen))
  {
    CreatedWf(EMPTY, Named(cfgs));
    CreatedMapped(EMPTY, Named(cfgs));
    RebuiltLive(App(cfgs, CreateAll(EMPTY, Named(cfgs)), {}, {}, {}, dbOpen));
    hide Live, Rebuilt;
  }

  /** The pause controls reach exactly the running pollers, each under the id that maps
      to its device, and that device is open. */
  lemma ControlReachesDevice(cfgs: seq<Cpe>, dbOpen: bool, loads: seq<Option<seq<Cpe>>>, id: string, o: Obj)
    ensures var a := Reloads(Started(cfgs, dbOpen), loads);
            && ((id, o) in a.controls <==> o in a.pollers && id in a.mgr.devices && a.mgr.devices[id] == o)
            && ((id, o) in a.controls ==> !a.mgr.heap[o].closed)
  {
    StartLive(cfgs, dbOpen);
    LoopsStayLive(Started(cfgs, dbOpen), loads);
    var a := Reloads(Started(cfgs, dbOpen), loads);
    hide Started, Reloads;
    if o in a.pollers { assert Current(a.mgr, o); }
    if id in a.mgr.devices { assert At(a.mgr, id).cfg.id == id; }
  }

  // ---- which configuration is in force ----

  /** After the last load that succeeded, number k, the configuration is that one and
      the devices are its ids; failed loads after it change nothing. */
  ghost predicate InForce(a: App, b: App, loads: seq<Option<seq<Cpe>>>) {
    if forall i :: 0 <= i < |loads| ==> loads[i].None? then b == a
    else exists k :: 0 <= k < |loads| && Decides(b, loads, k)
  }

  ghost predicate Decides(b: App, loads: seq<Option<seq<Cpe>>>, k: nat)
    requires k < |loads|
  {
    && loads[k] == Some(b.cfg) && b.mgr.devices.Keys == Ids(b.cfg)
    && forall i :: k < i < |loads| ==> loads[i].None?
  }

  lemma ReloadConfig(a: App, load: Option<seq<Cpe>>)
    requires Mapped(a.mgr)
    ensures var b := Reloaded(a, load);
            match load
            case None => b == a
            case Some(cfgs) => b.cfg == cfgs && b.mgr.devices.Keys == Ids(cfgs)
  {
    if load.Some? { UpdateMapped(a.mgr, load.value); }
    hide Mapped, Updated, NoChange, Ids, Rebuilt;
    if load.Some? { RebuiltRest(a.(cfg := load.value, mgr := Updated(a.mgr, load.value))); }
  }

  lemma RebuiltRest(a: App)
    requires Wf(a.mgr)
    ensures Rebuilt(a).cfg == a.cfg && Rebuilt(a).mgr == a.mgr
  {
  }

  lemma ReloadsOne(b: App, load: Option<seq<Cpe>>)
    requires Wf(b.mgr)
    ensures Reloads(b, [load]) == Reloaded(b, load)
  {
    hide Reloaded;
    assert [load][1..] == [];
    assert Reloads(Reloaded(b, load), []) == Reloaded(b, load);
  }

  lemma ReloadsSnoc(a: App, front: seq<Option<seq<Cpe>>>, load: Option<seq<Cpe>>)
    requires Wf(a.mgr)
    ensures Reloads(a, front + [load]) == Reloaded(Reloads(a, front), load)
  {
    hide *;
    ReloadsConcat(a, front, [load]);
    ReloadsOne(Reloads(a, front), load);
  }

  /** Over any reloads: the configuration is the last one that could be loaded, and the
      devices are the ids it names; without one, nothing has changed. */
  lemma {:induction false} LastLoadedInForce(a: App, loads: seq<Option<seq<Cpe>>>)
    requires Live(a)
    ensures InForce(a, Reloads(a, loads), loads)
    decreases |loads|
  {
    if loads != [] {
      var n := |loads| - 1;
      var front := loads[..n];
      LastLoadedInForce(a, front);
      LoopsStayLive(a, front);
      ReloadsSnoc(a, front, loads[n]);
      assert loads == front + [loads[n]];
      var b := Reloads(a, front);
      ReloadConfig(b, loads[n]);
      hide Live, Reloads, Reloaded, Ids;
      if loads[n].Some? {
        assert Decides(Reloaded(b, loads[n]), loads, n);
      } else if forall i :: 0 <= i < n ==> front[i].None? {
        assert forall i :: 0 <= i < n ==> loads[i] == front[i];
      } else {
        var k :| 0 <= k < n && Decides(b, front, k);
        assert loads[k] == front[k] && forall i :: k < i < n ==> loads[i] == front[i];
        assert Decides(b, loads, k);
      }
    }
  }

  // ---- the enabled flag ----

  /** The sections ask every mapped device for the enabled flag it has. */
  predicate KeepsFlags(m: Set, cfgs: seq<Cpe>)
    requires Wf(m)
  {
    forall id :: id in m.devices && id in Ids(cfgs) ==> Last(cfgs, id).enabled == At(m, id).cfg.enabled
  }

  lemma EnabledIs(m: Set, id: string)
    requires Mapped(m) && id in m.devices
    ensures m.devices[id] in Enabled(m) <==> At(m, id).cfg.enabled
  {
  }

  lemma SameEnabled(m: Set, cfgs: seq<Cpe>)
    requires Mapped(m) && NoChange(m, cfgs)
    ensures Enabled(Updated(m, cfgs)) == Enabled(m) <==> KeepsFlags(m, cfgs)
  {
    var u := Updated(m, cfgs);
    NoChangeExact(m, cfgs);
    UpdateMapped(m, cfgs);
    forall id | id in m.devices
      ensures id in Ids(cfgs) && At(u, id).cfg.enabled == Last(cfgs, id).enabled
      ensures m.devices[id] in Enabled(u) <==> At(u, id).cfg.enabled
      ensures m.devices[id] in Enabled(m) <==> At(m, id).cfg.enabled
    {
      LastAfterUpdate(m, cfgs, id);
      EnabledIs(u, id);
      EnabledIs(m, id);
    }
    assert forall o :: o in Enabled(u) + Enabled(m) ==> exists id :: id in m.devices && m.devices[id] == o;
    hide Updated, NoChange, Mapped, Enabled, Last, Ids;
    if KeepsFlags(m, cfgs) {
      assert forall o :: o in Enabled(u) <==> o in Enabled(m);
    }
  }

  /** For one reload: the pollers still match the enabled devices exactly when the
      change list is not empty or no device's enabled flag flips: a flip alone
      starts and stops nothing. */
  lemma PollersMatchExact(a: App, cfgs: seq<Cpe>)
    requires Live(a) && a.pollers == Enabled(a.mgr)
    ensures var b := Reloaded(a, Some(cfgs));
            b.pollers == Enabled(b.mgr) <==> !NoChange(a.mgr, cfgs) || KeepsFlags(a.mgr, cfgs)
  {
    if NoChange(a.mgr, cfgs) { SameEnabled(a.mgr, cfgs); }
  }

  /** A reload that replaces no loop: it fails to load, or reports no change. */
  predicate Quiet(a: App, load: Option<seq<Cpe>>)
    requires Wf(a.mgr)
  {
    load.None? || NoChange(a.mgr, load.value)
  }

  ghost predicate AllQuiet(a: App, loads: seq<Option<seq<Cpe>>>)
    requires Wf(a.mgr)
    decreases |loads|
  {
    loads == [] || (Quiet(a, loads[0]) && AllQuiet(Reloaded(a, loads[0]), loads[1..]))
  }

  lemma QuietReload(a: App, load: Option<seq<Cpe>>)
    requires Live(a) && Quiet(a, load)
    ensures Reloaded(a, load).pollers == a.pollers && Reloaded(a, load).mgr.devices == a.mgr.devices
  {
    if load.Some? { NoChangeExact(a.mgr, load.value); }
    hide Updated, NoChange;
  }

  lemma {:induction false} QuietReloads(a: App, loads: seq<Option<seq<Cpe>>>)
    requires Live(a) && AllQuiet(a, loads)
    ensures Reloads(a, loads).pollers == a.pollers && Reloads(a, loads).mgr.devices == a.mgr.devices
    decreases |loads|
  {
    if loads != [] {
      QuietReload(a, loads[0]);
      ReloadLive(a, loads[0]);
      hide Live, Reloaded, Quiet;
      QuietReloads(Reloaded(a, loads[0]), loads[1..]);
    }
  }

  lemma {:induction false} ReloadsConcat(a: App, xs: seq<Option<seq<Cpe>>>, ys: seq<Option<seq<Cpe>>>)
    requires Wf(a.mgr)
    ensures Reloads(a, xs + ys) == Reloads(Reloads(a, xs), ys)
    decreases |xs|
  {
    if xs == [] {
      assert xs + ys == ys;
    } else {
      assert (xs + ys)[1..] == xs[1..] + ys && (xs + ys)[0] == xs[0];
      hide Reloaded;
      ReloadsConcat(Reloaded(a, xs[0]), xs[1..], ys);
    }
  }

  /** The same enabled flag on every mapped device. */
  predicate SameFlags(m: Set, u: Set)
    requires Wf(m) && Wf(u) && m.devices == u.devices
  {
    forall id :: id in m.devices ==> At(m, id).cfg.enabled == At(u, id).cfg.enabled
  }

  lemma SameFlagsExact(m: Set, u: Set)
    requires Mapped(m) && Mapped(u) && m.devices == u.devices
    ensures Enabled(m) == Enabled(u) <==> SameFlags(m, u)
  {
    forall id | id in m.devices
      ensures m.devices[id] in Enabled(m) <==> At(m, id).cfg.enabled
      ensures m.devices[id] in Enabled(u) <==> At(u, id).cfg.enabled
    {
      EnabledIs(m, id);
      EnabledIs(u, id);
    }
    assert forall o :: o in Enabled(m) + Enabled(u) ==> exists id :: id in m.devices && m.devices[id] == o;
    hide Mapped, Enabled;
    if SameFlags(m, u) {
      assert forall o :: o in Enabled(m) <==> o in Enabled(u);
    }
  }

  /** Every run has a last reload with a change: number k, 0 for start-up. */
  lemma {:induction false} LastRebuild(a: App, loads: seq<Option<seq<Cpe>>>) returns (k: nat)
    requires Wf(a.mgr)
    ensures k <= |loads|
    ensures k > 0 ==> !Quiet(Reloads(a, loads[..k - 1]), loads[k - 1])
    ensures AllQuiet(Reloads(a, loads[..k]), loads[k..])
    decreases |loads|
  {
    if loads == [] {
      k := 0;
    } else {
      var b := Reloaded(a, loads[0]);
      var j := LastRebuild(b, loads[1..]);
      assert forall i :: 0 <= i < |loads| ==> loads[1..][..i] == loads[..i + 1][1..];
      assert loads[1..][j..] == loads[j + 1..];
      hide Reloaded, Quiet;
      if j == 0 && Quiet(a, loads[0]) {
        k := 0;
        assert loads[0..] == loads && loads[..0] == [];
      } else {
        k := j + 1;
        assert loads[..k][1..] == loads[1..][..j] && loads[..k][0] == loads[0];
      }
    }
  }

  lemma LoudReload(b: App, load: Option<seq<Cpe>>)
    requires Wf(b.mgr) && !Quiet(b, load)
    ensures Reloaded(b, load).pollers == Enabled(Reloaded(b, load).mgr)
  {
    hide Enabled, Updated, NoChange;
  }

  lemma RebuiltAt(a: App, loads: seq<Option<seq<Cpe>>>, k: nat)
    requires Wf(a.mgr) && a.pollers == Enabled(a.mgr) && k <= |loads|
    requires k > 0 ==> !Quiet(Reloads(a, loads[..k - 1]), loads[k - 1])
    ensures Reloads(a, loads[..k]).pollers == Enabled(Reloads(a, loads[..k]).mgr)
  {
    if k > 0 {
      hide *;
      ReloadsSnoc(a, loads[..k - 1], loads[k - 1]);
      assert loads[..k] == loads[..k - 1] + [loads[k - 1]];
      LoudReload(Reloads(a, loads[..k - 1]), loads[k - 1]);
    } else {
      assert loads[..0] == [];
    }
  }

  /** Over any run: the pollers are the devices that were enabled once the last reload
      with a change was applied, at start-up if there was none; so they match the
      enabled devices exactly when no flag differs from what it was then. */
  lemma PollersOverRuns(a: App, loads: seq<Option<seq<Cpe>>>) returns (k: nat)
    requires Live(a) && a.pollers == Enabled(a.mgr)
    ensures k <= |loads|
    ensures k > 0 ==> !Quiet(Reloads(a, loads[..k - 1]), loads[k - 1])
    ensures AllQuiet(Reloads(a, loads[..k]), loads[k..])
    ensures var was, now := Reloads(a, loads[..k]), Reloads(a, loads);
            && now.pollers == Enabled(was.mgr)
            && now.mgr.devices == was.mgr.devices
            && (now.pollers == Enabled(now.mgr) <==> SameFlags(was.mgr, now.mgr))
  {
    LiveMapped(a);
    hide *;
    k := LastRebuild(a, loads);
    var was, now := Reloads(a, loads[..k]), Reloads(a, loads);
    RebuiltAt(a, loads, k);
    LoopsStayLive(a, loads[..k]);
    LoopsStayLive(a, loads);
    assert loads == loads[..k] + loads[k..];
    ReloadsConcat(a, loads[..k], loads[k..]);
    QuietReloads(was, loads[k..]);
    LiveMapped(was);
    LiveMapped(now);
    SameFlagsExact(was.mgr, now.mgr);
  }

  lemma LiveMapped(a: App)
    requires Live(a)
    ensures Mapped(a.mgr) && Wf(a.mgr)
  {
  }

  // ---- the application object ----

  class State {
    var cfg: seq<Cpe>
    const mgr: Manager
    var pollers: set<Obj>
    var syncers: set<Obj>
    var controls: set<(string, Obj)>
    const dbOpen: bool

    function View(): App
      reads this, mgr
    {
      App(cfg, mgr.View(), pollers, syncers, controls, dbOpen)
    }

    /** Start, up to the listening socket. */
    constructor (cfgs: seq<Cpe>, dbOpen: bool)
      ensures View() == Started(cfgs, dbOpen)
      ensures fresh(mgr)
    {
      this.cfg, this.dbOpen, pollers, syncers, controls := cfgs, dbOpen, {}, {}, {};
      mgr := new Manager(cfgs);
      new;
      CreatedWf(EMPTY, Named(cfgs));
      StartPollers();
      StartSyncers();
      SetPollers();
    }

    method StartPollers()
      requires Wf(mgr.View())
      modifies this`pollers
      ensures pollers == Enabled(mgr.View())
    {
      pollers := Enabled(mgr.View());
    }

    method StartSyncers()
      requires Wf(mgr.View())
      modifies this`syncers
      ensures syncers == if dbOpen then Enabled(mgr.View()) else old(syncers)
    {
      if dbOpen { syncers := Enabled(mgr.View()); }
    }

    method SetPollers()
      requires forall o :: o in pollers ==> o < |mgr.heap|
      modifies this`controls
      ensures controls == ById(mgr.View(), pollers)
    {
      controls := ById(mgr.View(), pollers);
    }

    /** What reload does once the device set has changed. */
    method RebuildLoops()
      requires Wf(mgr.View())
      modifies this`pollers, this`syncers, this`controls
      ensures View() == Rebuilt(old(View()))
    {
      pollers := {};
      StartPollers();
      syncers := {};
      StartSyncers();
      SetPollers();
    }

    /** reload */
    method Reload(load: Option<seq<Cpe>>)
      requires Mapped(mgr.View())
      modifies this, mgr
      ensures View() == Reloaded(old(View()), load)
    {
      match load
      case None => return;
      case Some(cfgs) =>
        UpdateMapped(mgr.View(), cfgs);
        assert Wf(mgr.View()) && Wf(Updated(mgr.View(), cfgs));
        hide Updated, NoChange, Mapped, Enabled, ById, Wf, Rebuilt, ChangesAll, RemovalsOf, Dropped;
        cfg := cfgs;
        var changes := mgr.Update(cfgs);
        if |changes| > 0 { RebuildLoops(); }
    }
  }
}
