/** The HTTP handlers that write back to the CPE: mark read and delete. */
module SmsHandlers {
  import opened Common
  import opened Text
  import opened SmsTable
  import M = SmsMirror

  /** parseSmsID: None is its error. */
  method ParseSmsId(s: string) returns (n: Option<int>)
    ensures n.None? <==> s == [] || !AllDigits(s)
    ensures n.Some? ==> n.value == Wrap64(Decimal(s))
  {
    if s == [] {
      return None;
    }
    for i := 0 to |s|
      invariant AllDigits(s[..i])
    {
      if !('0' <= s[i] <= '9') {
        return None;
      }
      assert s[..i + 1] == s[..i] + [s[i]];
    }
    assert s[..|s|] == s;
    var acc := 0;
    for i := 0 to |s|
      invariant acc == Wrap64(Decimal(s[..i]))
    {
      assert s[..i + 1][..i] == s[..i];
      WrapDigit(Decimal(s[..i]), s[i] as int - '0' as int);
      acc := Wrap64(acc * 10 + (s[i] as int - '0' as int));
    }
    return Some(acc);
  }

  /** The path names the message it spells exactly when the numeral fits in an
      int64; every longer one names some other id, possibly a real one. */
  lemma ParsedIdExact(s: string)
    requires AllDigits(s)
    ensures Wrap64(Decimal(s)) == Decimal(s) <==> Decimal(s) < TWO_63
  {
  }

  lemma ParsedIdAliases(id: nat)
    requires 0 < id < TWO_63
    ensures PrintNat(TWO_64 + id) != PrintNat(id)
    ensures Wrap64(Decimal(PrintNat(TWO_64 + id))) == id
  {
    DecimalPrintNat(TWO_64 + id);
    DecimalPrintNat(id);
  }

  /** What the environment decides while a handler runs.  cpeTook and localTook say
      whether a request or statement that reports failure took effect all the same. */
  datatype Env = Env(known: bool, dbOpen: bool, loadOk: bool, managed: bool, leaseOk: bool,
                     cpeOk: bool, cpeTook: bool, localOk: bool, localTook: bool)

  /** The handler gets as far as sending its request to the CPE. */
  predicate Sends(env: Env, id: Option<int>, row: Option<Row>) {
    env.known && id.Some? && env.dbOpen && env.loadOk && row.Some? && env.managed && env.leaseOk
  }

  function Find(rows: seq<Row>, dev: string, id: Option<int>): Option<Row> {
    if id.Some? && id.value >= 0 then Get(rows, dev, id.value) else None
  }

  /** The row the path of a request names. */
  predicate Meant(r: Row, dev: string, id: Option<int>) {
    r.dev == dev && id == Some(r.id as int)
  }

  lemma FindExact(rows: seq<Row>, dev: string, id: Option<int>)
    ensures var row := Find(rows, dev, id);
            && (row.None? <==> forall r :: r in rows ==> !Meant(r, dev, id))
            && (row.Some? ==> row.value in rows && Meant(row.value, dev, id))
  {
    if id.Some? && id.value >= 0 {
      GetRow(rows, dev, id.value);
      FoundExact(rows, dev, id.value);
    }
  }

  function IdOf(sid: string): Option<int> {
    if sid == [] || !AllDigits(sid) then None else Some(Wrap64(Decimal(sid)))
  }

  lemma MarkedRead(rows: seq<Row>, dev: string, id: Option<int>, row: Row)
    requires row in rows && Meant(row, dev, id) && id.value >= 0
    ensures var after := SmsTable.MarkRead(rows, dev, id.value);
            && (forall r :: r in after && Meant(r, dev, id) ==> r.readLocal && r.status == 1)
            && exists r :: r in after && Meant(r, dev, id) && r.cpe == row.cpe
  {
    var after := SmsTable.MarkRead(rows, dev, id.value);
    var i :| 0 <= i < |rows| && rows[i] == row;
    assert after[i] in after && Meant(after[i], dev, id);
  }

  class Api {
    const db: SmsDb
    var inbox: map<int, Sms>       // what the CPE holds

    constructor (db: SmsDb)
      ensures this.db == db
    {
      this.db, inbox := db, map[];
    }

    /** handleSmsDelete */
    method Delete(dev: string, sid: string, env: Env) returns (code: int)
      modifies this, db
      ensures var id := IdOf(sid);
              && (code == 400 <==> env.known && id.None?)
              && (code == 409 <==> env.known && id.Some? && !env.dbOpen)
              && (code == 404 <==>
                    (!env.known
                     || (id.Some? && env.dbOpen && env.loadOk && forall r :: r in old(db.rows) ==> !Meant(r, dev, id))))
              && (code == 503 <==> Sends(env.(leaseOk := true), id, Find(old(db.rows), dev, id)) && !env.leaseOk)
              && (code == 502 <==> Sends(env, id, Find(old(db.rows), dev, id)) && !env.cpeOk)
              && code in {200, 400, 404, 409, 500, 502, 503}
      // Success is answered exactly when the request was sent and both sides reported success.
      ensures code == 200 <==> Sends(env, IdOf(sid), Find(old(db.rows), dev, IdOf(sid))) && env.cpeOk && env.localOk
      // Nothing changes on the way to the CPE.
      ensures code in {400, 404, 409, 503} ==> inbox == old(inbox) && db.View() == old(db.View())
      // And then the message is gone, here and on the CPE.
      ensures code == 200 ==>
        && (forall r :: r in db.rows ==> !Meant(r, dev, IdOf(sid)))
        && exists r :: r in old(db.rows) && Meant(r, dev, IdOf(sid)) && inbox == old(inbox) - {r.cpe}
      ensures var row := Find(old(db.rows), dev, IdOf(sid));
              var sent := Sends(env, IdOf(sid), row);
              // The CPE changes if the request was sent and took effect, whatever was reported.
              && inbox == (if sent && (env.cpeOk || env.cpeTook) then old(inbox) - {row.value.cpe} else old(inbox))
              // The table changes only after the CPE has reported success.
              && db.View() == if sent && env.cpeOk && (env.localOk || env.localTook)
                              then old(db.View()).(rows := DeleteLocal(old(db.rows), dev, row.value.id))
                              else old(db.View())
    {
      if !env.known {
        return 404;
      }
      var id := ParseSmsId(sid);
      if id == None {
        return 400;
      }
      if !env.dbOpen {
        return 409;
      }
      if !env.loadOk {
        return 500;
      }
      var row := Find(db.rows, dev, id);
      FindExact(db.rows, dev, id);
      if row == None {
        return 404;
      }
      if !env.managed {
        return 500;
      }
      if !env.leaseOk {
        return 503;
      }
      if env.cpeOk || env.cpeTook {
        inbox := inbox - {row.value.cpe};
      }
      if !env.cpeOk {
        return 502;
      }
      if env.localOk || env.localTook {
        var _ := db.DeleteSmsLocal(dev, id.value);
      }
      return if env.localOk then 200 else 500;
    }

    /** handleSmsMarkRead */
    method MarkRead(dev: string, sid: string, env: Env) returns (code: int)
      modifies this, db
      ensures var id := IdOf(sid);
              && (code == 400 <==> env.known && id.None?)
              && (code == 409 <==> env.known && id.Some? && !env.dbOpen)
              && (code == 404 <==>
                    (!env.known
                     || (id.Some? && env.dbOpen && env.loadOk && forall r :: r in old(db.rows) ==> !Meant(r, dev, id))))
              && (code == 503 <==> Sends(env.(leaseOk := true), id, Find(old(db.rows), dev, id)) && !env.leaseOk)
              && (code == 502 <==> Sends(env, id, Find(old(db.rows), dev, id)) && !env.cpeOk)
              && code in {200, 400, 404, 409, 500, 502, 503}
      // Success is answered exactly when the request was sent and both sides reported success.
      ensures code == 200 <==> Sends(env, IdOf(sid), Find(old(db.rows), dev, IdOf(sid))) && env.cpeOk && env.localOk
      // Nothing changes on the way to the CPE.
      ensures code in {400, 404, 409, 503} ==> inbox == old(inbox) && db.View() == old(db.View())
      // And then the message is read, here and, if it is still there, on the CPE.
      ensures code == 200 ==>
        && (forall r :: r in db.rows && Meant(r, dev, IdOf(sid)) ==> r.readLocal && r.status == 1)
        && exists r :: r in db.rows && Meant(r, dev, IdOf(sid)) && (r.cpe in inbox ==> inbox[r.cpe].status == 1)
      ensures var row := Find(old(db.rows), dev, IdOf(sid));
              var sent := Sends(env, IdOf(sid), row);
              && inbox.Keys == old(inbox).Keys
              && (forall k :: k in inbox ==>
                    inbox[k] == if sent && (env.cpeOk || env.cpeTook) && k == row.value.cpe
                                then old(inbox)[k].(status := 1) else old(inbox)[k])
              && db.View() == if sent && env.cpeOk && (env.localOk || env.localTook)
                              then old(db.View()).(rows := SmsTable.MarkRead(old(db.rows), dev, row.value.id))
                              else old(db.View())
    {
      hide SmsTable.MarkRead, Get, Meant;
      if !env.known {
        return 404;
      }
      var id := ParseSmsId(sid);
      if id == None {
        return 400;
      }
      if !env.dbOpen {
        return 409;
      }
      if !env.loadOk {
        return 500;
      }
      var row := Find(db.rows, dev, id);
      FindExact(db.rows, dev, id);
      if row == None {
        return 404;
      }
      if !env.managed {
        return 500;
      }
      if !env.leaseOk {
        return 503;
      }
      var k := row.value.cpe;
      if (env.cpeOk || env.cpeTook) && k in inbox {
        inbox := inbox[k := inbox[k].(status := 1)];
      }
      if !env.cpeOk {
        return 502;
      }
      if env.localOk || env.localTook {
        MarkedRead(db.rows, dev, id, row.value);
        var _ := db.MarkSmsRead(dev, id.value);
      }
      return if env.localOk then 200 else 500;
    }
  }

  // ---- the same handlers among others ----

  /** A handler call as a run of the interleaved model in which nothing comes between. */
  function Events(t: M.CallId, o: M.DeviceObj, id: nat, delete: bool, env: Env): seq<M.Event> {
    [if delete then M.StartDelete(t, id) else M.StartRead(t, id)]
    + if env.leaseOk
      then [M.Acquire(t, o), M.CpeAnswers(t, env.cpeOk, env.cpeTook), M.LocalAnswers(t, env.localOk, env.localTook)]
      else [M.LeaseFails(t)]
  }

  lemma Run2(s: M.System, a: M.Event, b: M.Event)
    ensures M.Run(s, [a, b]) == M.Next(M.Next(s, a), b)
  {
    hide M.Next;
    assert [a, b][1..] == [b] && [b][1..] == [];
    assert M.Run(M.Next(s, a), [b]) == M.Next(M.Next(s, a), b);
  }

  lemma Run4(s: M.System, a: M.Event, b: M.Event, c: M.Event, d: M.Event)
    ensures M.Run(s, [a, b, c, d]) == M.Next(M.Next(M.Next(M.Next(s, a), b), c), d)
  {
    hide M.Next;
    assert [a, b, c, d][1..] == [b, c, d];
    assert [b, c, d][1..] == [c, d];
    Run2(M.Next(M.Next(s, a), b), c, d);
  }

  lemma LeaseTaken(s: M.System, t: M.CallId, o: M.DeviceObj, id: nat, delete: bool)
    requires t !in s.calls && o !in s.leases && Get(s.table.rows, s.dev, id).Some?
    ensures var k := Get(s.table.rows, s.dev, id).value.cpe;
            var s' := M.Next(M.Next(s, if delete then M.StartDelete(t, id) else M.StartRead(t, id)), M.Acquire(t, o));
            && t in s'.calls && s'.calls[t] == (if delete then M.DeleteLeased(o, id, k) else M.ReadLeased(o, id, k))
            && s'.inbox == s.inbox && s'.table == s.table && s'.dev == s.dev
  {
    hide Get;
  }

  lemma LeaseRefused(s: M.System, t: M.CallId, id: nat, delete: bool)
    requires t !in s.calls && Get(s.table.rows, s.dev, id).Some?
    ensures var s' := M.Next(M.Next(s, if delete then M.StartDelete(t, id) else M.StartRead(t, id)), M.LeaseFails(t));
            t in s'.calls && s'.calls[t] == M.Finished(M.Refused) && s'.inbox == s.inbox && s'.table == s.table
  {
    hide Get;
  }

  lemma DeleteGoesOn(s: M.System, t: M.CallId, o: M.DeviceObj, id: nat, k: int, env: Env)
    requires t in s.calls && s.calls[t] == M.DeleteLeased(o, id, k)
    ensures var s' := M.Next(M.Next(s, M.CpeAnswers(t, env.cpeOk, env.cpeTook)),
                             M.LocalAnswers(t, env.localOk, env.localTook));
            && t in s'.calls && (s'.calls[t] == M.Finished(M.Deleted(k)) <==> env.cpeOk && env.localOk)
            && s'.inbox == (if env.cpeOk || env.cpeTook then s.inbox - {k} else s.inbox)
            && s'.table.rows == (if env.cpeOk && (env.localOk || env.localTook)
                                 then DeleteLocal(s.table.rows, s.dev, id) else s.table.rows)
  {
    hide DeleteLocal;
  }

  lemma MarkReadGoesOn(s: M.System, t: M.CallId, o: M.DeviceObj, id: nat, k: int, env: Env)
    requires t in s.calls && s.calls[t] == M.ReadLeased(o, id, k)
    ensures var s' := M.Next(M.Next(s, M.CpeAnswers(t, env.cpeOk, env.cpeTook)),
                             M.LocalAnswers(t, env.localOk, env.localTook));
            && t in s'.calls && (s'.calls[t] == M.Finished(M.ReadMarked(id, k)) <==> env.cpeOk && env.localOk)
            && s'.inbox == (if (env.cpeOk || env.cpeTook) && k in s.inbox
                            then s.inbox[k := s.inbox[k].(status := 1)] else s.inbox)
            && s'.table.rows == (if env.cpeOk && (env.localOk || env.localTook)
                                 then SmsTable.MarkRead(s.table.rows, s.dev, id) else s.table.rows)
  {
    hide SmsTable.MarkRead;
  }

  /** The interleaved model answers a delete with success exactly when the handler does,
      and its inbox and table are the ones the handler leaves. */
  lemma DeleteIsRun(s: M.System, t: M.CallId, o: M.DeviceObj, id: nat, env: Env)
    requires t !in s.calls && o !in s.leases && Get(s.table.rows, s.dev, id).Some?
    ensures var k := Get(s.table.rows, s.dev, id).value.cpe;
            var s' := M.Run(s, Events(t, o, id, true, env));
            && t in s'.calls && (s'.calls[t] == M.Finished(M.Deleted(k)) <==> env.leaseOk && env.cpeOk && env.localOk)
            && s'.inbox == (if env.leaseOk && (env.cpeOk || env.cpeTook) then s.inbox - {k} else s.inbox)
            && s'.table.rows == (if env.leaseOk && env.cpeOk && (env.localOk || env.localTook)
                                 then DeleteLocal(s.table.rows, s.dev, id) else s.table.rows)
  {
    var evs := Events(t, o, id, true, env);
    var k := Get(s.table.rows, s.dev, id).value.cpe;
    hide Get, DeleteLocal, SmsTable.MarkRead, M.Next, M.Run;
    if env.leaseOk {
      LeaseTaken(s, t, o, id, true);
      DeleteGoesOn(M.Next(M.Next(s, evs[0]), evs[1]), t, o, id, k, env);
      Run4(s, evs[0], evs[1], evs[2], evs[3]);
      assert evs == [evs[0], evs[1], evs[2], evs[3]];
    } else {
      LeaseRefused(s, t, id, true);
      Run2(s, evs[0], evs[1]);
      assert evs == [evs[0], evs[1]];
    }
  }

  lemma MarkReadIsRun(s: M.System, t: M.CallId, o: M.DeviceObj, id: nat, env: Env)
    requires t !in s.calls && o !in s.leases && Get(s.table.rows, s.dev, id).Some?
    ensures var k := Get(s.table.rows, s.dev, id).value.cpe;
            var s' := M.Run(s, Events(t, o, id, false, env));
            && t in s'.calls && (s'.calls[t] == M.Finished(M.ReadMarked(id, k)) <==>
                                env.leaseOk && env.cpeOk && env.localOk)
            && s'.inbox == (if env.leaseOk && (env.cpeOk || env.cpeTook) && k in s.inbox
                            then s.inbox[k := s.inbox[k].(status := 1)] else s.inbox)
            && s'.table.rows == (if env.leaseOk && env.cpeOk && (env.localOk || env.localTook)
                                 then SmsTable.MarkRead(s.table.rows, s.dev, id) else s.table.rows)
  {
    var evs := Events(t, o, id, false, env);
    var k := Get(s.table.rows, s.dev, id).value.cpe;
    hide Get, DeleteLocal, SmsTable.MarkRead, M.Next, M.Run;
    if env.leaseOk {
      LeaseTaken(s, t, o, id, false);
      MarkReadGoesOn(M.Next(M.Next(s, evs[0]), evs[1]), t, o, id, k, env);
      Run4(s, evs[0], evs[1], evs[2], evs[3]);
      assert evs == [evs[0], evs[1], evs[2], evs[3]];
    } else {
      LeaseRefused(s, t, id, false);
      Run2(s, evs[0], evs[1]);
      assert evs == [evs[0], evs[1]];
    }
  }
}
