/** Event-handler lists (svc_Eh.c): the handlers run by one thread share
    one queue. Each is initialised, mapped to the queue and registered for
    its broadcast ids; every dequeued message is then offered to all of
    them, filtered by destination, and released once. */
module Eh {
  import opened Bytes
  import M = MsgFwk

  /** svc_Eh_Info_t; the init and message handlers are represented by
      whether they are non-NULL. */
  datatype Info = Info(eh: u8, bcastList: seq<u16>, hasInit: bool, hasHandler: bool)

  /** The registrations of svc_Eh_init's loop, in list order. */
  function RegisterAll(f: M.Fwk, eh: u8, ids: seq<u16>): (g: M.Fwk)
    requires M.Valid(f) && eh < |f.queues|
    ensures M.Valid(g) && g.queues == f.queues
    decreases |ids|
  {
    if ids == [] then f else RegisterAll(M.RegisterMsg(f, eh, ids[0]), eh, ids[1..])
  }

  /** A mapping present below the fill index survives a further
      registration that does not wrap the index. */
  lemma MappedStays(f: M.Fwk, eh: u8, id: u16, e2: u8, id2: u16)
    requires M.Valid(f) && eh < |f.queues| && e2 < |f.queues| && f.idx < 0xFF
    requires M.AlreadyMapped(f, eh, id)
    ensures M.AlreadyMapped(M.RegisterMsg(f, e2, id2), eh, id)
  {
    var i :| 0 <= i < f.idx && f.slots[i].id == id && f.queues[f.slots[i].eh] == f.queues[eh];
    var g := M.RegisterMsg(f, e2, id2);
    assert g.slots[i] == f.slots[i];
  }

  /** Registering a list maps every id in it to eh's queue, unless the u8
      fill index wraps on the way. */
  lemma {:induction false} RegisterAllMapsEvery(f: M.Fwk, eh: u8, ids: seq<u16>)
    requires M.Valid(f) && eh < |f.queues| && f.idx + |ids| < 0x100
    ensures forall k :: 0 <= k < |ids| ==> M.AlreadyMapped(RegisterAll(f, eh, ids), eh, ids[k])
    decreases |ids|
  {
    if ids != [] {
      var g := M.RegisterMsg(f, eh, ids[0]);
      assert M.AlreadyMapped(g, eh, ids[0]) by {
        if !M.AlreadyMapped(f, eh, ids[0]) {
          assert g.slots[f.idx].id == ids[0] && g.queues[g.slots[f.idx].eh] == g.queues[eh];
        }
      }
      assert g.idx <= f.idx + 1;
      RegisterAllMapsEvery(g, eh, ids[1..]);
      KeepsMapped(g, eh, ids[0], ids[1..]);
      forall k | 1 <= k < |ids|
        ensures M.AlreadyMapped(RegisterAll(f, eh, ids), eh, ids[k])
      {
        assert ids[k] == ids[1..][k - 1];
      }
    }
  }

  /** RegisterAllMapsEvery for any list, stated for the case with room. */
  lemma RegisterAllMapsEveryIfRoom(f: M.Fwk, eh: u8, ids: seq<u16>)
    requires M.Valid(f) && eh < |f.queues|
    ensures f.idx + |ids| < 0x100 ==>
              forall k :: 0 <= k < |ids| ==> M.AlreadyMapped(RegisterAll(f, eh, ids), eh, ids[k])
  {
    if f.idx + |ids| < 0x100 {
      RegisterAllMapsEvery(f, eh, ids);
    }
  }

  /** Later registrations keep an existing mapping while the index does not
      wrap. */
  lemma {:induction false} KeepsMapped(f: M.Fwk, eh: u8, id: u16, ids: seq<u16>)
    requires M.Valid(f) && eh < |f.queues| && f.idx + |ids| < 0x100
    requires M.AlreadyMapped(f, eh, id)
    ensures M.AlreadyMapped(RegisterAll(f, eh, ids), eh, id)
    decreases |ids|
  {
    if ids != [] {
      MappedStays(f, eh, id, eh, ids[0]);
      var g := M.RegisterMsg(f, eh, ids[0]);
      assert g.idx <= f.idx + 1;
      KeepsMapped(g, eh, id, ids[1..]);
    }
  }

  /** svc_Eh_init: the init handler runs when present, eh is mapped to the
      thread's queue, then every broadcast id is registered. */
  datatype Inited = Inited(fwk: M.Fwk, initCalled: bool)

  function Init(f: M.Fwk, info: Info, queue: nat): (r: Inited)
    requires M.Valid(f) && info.eh < |f.queues|
    ensures M.Valid(r.fwk) && r.initCalled == info.hasInit && |r.fwk.queues| == |f.queues|
    ensures r.fwk.queues[info.eh] == queue
    ensures forall e :: 0 <= e < |f.queues| && e != info.eh ==> r.fwk.queues[e] == f.queues[e]
    ensures f.idx + |info.bcastList| < 0x100 ==>
              forall k :: 0 <= k < |info.bcastList| ==> M.AlreadyMapped(r.fwk, info.eh, info.bcastList[k])
  {
    var g := M.RegisterEh(f, info.eh, queue);
    RegisterAllMapsEveryIfRoom(g, info.eh, info.bcastList);
    Inited(RegisterAll(g, info.eh, info.bcastList), info.hasInit)
  }

  predicate EhsFit(infos: seq<Info>, numEh: nat) {
    forall i :: 0 <= i < |infos| ==> infos[i].eh < numEh
  }

  /** svc_Eh_listInit: Init for every handler of the list, in order; the
      result lists the ehs whose init handler ran. */
  datatype ListInited = ListInited(fwk: M.Fwk, initCalls: seq<u8>)

  function ListInit(f: M.Fwk, infos: seq<Info>, queue: nat): (r: ListInited)
    requires M.Valid(f) && EhsFit(infos, |f.queues|)
    ensures M.Valid(r.fwk) && |r.fwk.queues| == |f.queues|
    ensures forall i :: 0 <= i < |infos| ==> r.fwk.queues[infos[i].eh] == queue
    ensures forall e :: 0 <= e < |f.queues| && (forall i :: 0 <= i < |infos| ==> infos[i].eh != e) ==>
              r.fwk.queues[e] == f.queues[e]
    ensures forall e :: e in r.initCalls <==> exists i :: 0 <= i < |infos| && infos[i].eh == e && infos[i].hasInit
    decreases |infos|
  {
    if infos == [] then ListInited(f, [])
    else
      var one := Init(f, infos[0], queue);
      var rest := ListInit(one.fwk, infos[1..], queue);
      assert forall i :: 1 <= i < |infos| ==> infos[i] == infos[1..][i - 1];
      ListInited(rest.fwk, (if one.initCalled then [infos[0].eh] else []) + rest.initCalls)
  }

  /** svc_Eh_msgHandler's filter: the handler exists and the message's
      destination, chosen as msgSend chooses it, is BROADCAST or this eh. */
  predicate Accepts(info: Info, h: M.Hdr) {
    info.hasHandler && (M.Dest(h) == M.EH_BROADCAST || M.Dest(h) == info.eh)
  }

  /** The handlers svc_Eh_listMsgHandler calls, in list order. */
  function Called(infos: seq<Info>, h: M.Hdr): (r: seq<u8>)
    ensures |r| <= |infos|
    ensures forall e :: e in r <==> exists i :: 0 <= i < |infos| && infos[i].eh == e && Accepts(infos[i], h)
  {
    if infos == [] then []
    else
      assert forall i :: 1 <= i < |infos| ==> infos[i] == infos[1..][i - 1];
      (if Accepts(infos[0], h) then [infos[0].eh] else []) + Called(infos[1..], h)
  }

  /** svc_Eh_listMsgHandler: offer the message to every handler, then
      release the reference the queue held, exactly once. */
  datatype Dispatched = Dispatched(called: seq<u8>, released: M.Released)

  function ListMsgHandler(infos: seq<Info>, h: M.Hdr): (r: Dispatched)
    ensures r.called == Called(infos, h)
    ensures r.released.hdr.cnt == M.Dec(h.cnt)
    ensures r.released.freed <==> h.cnt == 1
  {
    Dispatched(Called(infos, h), M.Release(h))
  }

  /** A message with a destination other than BROADCAST reaches only the
      handlers of that destination. */
  lemma PointToPointReachesOnlyAddressee(infos: seq<Info>, h: M.Hdr)
    requires M.Dest(h) != M.EH_BROADCAST
    ensures forall e :: e in ListMsgHandler(infos, h).called ==> e == M.Dest(h)
  {
  }

  /** A message addressed to BROADCAST reaches every handler of the list
      that has a message handler. */
  lemma BroadcastReachesEveryHandler(infos: seq<Info>, h: M.Hdr)
    requires M.Dest(h) == M.EH_BROADCAST
    ensures forall i :: 0 <= i < |infos| && infos[i].hasHandler ==> infos[i].eh in ListMsgHandler(infos, h).called
  {
  }

  /** A message sent to one of the list's handlers, once the list is
      initialised on its queue, lands in that queue and is handed to that
      handler. */
  lemma SentMessageIsHandled(f: M.Fwk, infos: seq<Info>, queue: nat, i: nat, h: M.Hdr)
    requires M.Valid(f) && EhsFit(infos, |f.queues|)
    requires i < |infos| && infos[i].hasHandler && M.Dest(h) == infos[i].eh
    ensures M.Send(ListInit(f, infos, queue).fwk, h).queue == queue
    ensures infos[i].eh in ListMsgHandler(infos, M.Send(ListInit(f, infos, queue).fwk, h).hdr).called
  {
    var s := M.Send(ListInit(f, infos, queue).fwk, h);
    assert M.Dest(s.hdr) == M.Dest(h);
    assert Accepts(infos[i], s.hdr);
  }

  /** svc_Eh_listRun's queue: created only when both the queue memory and
      the depth are non-zero; otherwise NULL. `created` is the handle the
      RTOS returns. */
  function RunQueue(hasQueueMem: bool, queueDepth: nat, created: nat): (q: nat)
    ensures q != 0 ==> hasQueueMem && queueDepth != 0
    ensures hasQueueMem && queueDepth != 0 ==> q == created
  {
    if hasQueueMem && queueDepth != 0 then created else 0
  }

  /** The initialisation part of svc_Eh_listRun, before its endless loop. */
  function ListRunInit(f: M.Fwk, infos: seq<Info>, hasQueueMem: bool, queueDepth: nat, created: nat): (r: ListInited)
    requires M.Valid(f) && EhsFit(infos, |f.queues|)
    ensures |r.fwk.queues| == |f.queues|
    ensures !(hasQueueMem && queueDepth != 0) ==> forall i :: 0 <= i < |infos| ==> r.fwk.queues[infos[i].eh] == 0
    ensures hasQueueMem && queueDepth != 0 ==> forall i :: 0 <= i < |infos| ==> r.fwk.queues[infos[i].eh] == created
  {
    ListInit(f, infos, RunQueue(hasQueueMem, queueDepth, created))
  }
}
