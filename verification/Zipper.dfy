/**
 zipper.c: the registry of 1000 slots and the ready stack that stand in for an unbounded
 map from event numbers to the payloads of their devices. Bit words are sets of device numbers.
 */
module Zippers {
  import opened Options
  import opened EventFiles

  const HASH_TABLE_SIZE: nat := 1000
  const QUEUE_LENGTH: nat := 100
  const MAX_DEVICE_NUMBER: nat := 34
  const DEFAULT_EVENT_MASK: set<nat> := {0, 4, 5, 6, 7, 8, 9, 10, 11}
  const DATA_FORMAT_VERSION: nat := 1

  /** A message of the event stream; `id` tells allocations apart. */
  datatype Reply = Reply(id: nat, device: nat, number: nat, bytes: seq<bv8>)

  datatype EventRecord = EventRecord(bits: set<nat>, eventNumber: nat, data: seq<Option<Reply>>)

  /** What save_event writes: the header, and the payloads of the devices in the mask. */
  datatype SavedEvent = SavedEvent(number: nat, status: nat, version: nat, deviceMask: set<nat>, payloads: seq<Reply>) {
    /** The bytes of it in the file. */
    function Image(): seq<bv8> {
      HeaderBytes(number, if status == 0 then 0 else 1, version, deviceMask) + Bytes(payloads)
    }
  }

  function Bytes(ps: seq<Reply>): seq<bv8> {
    if ps == [] then [] else Bytes(ps[..|ps| - 1]) + ps[|ps| - 1].bytes
  }

  function Images(saved: seq<SavedEvent>): seq<bv8> {
    if saved == [] then [] else Images(saved[..|saved| - 1]) + saved[|saved| - 1].Image()
  }

  datatype State = State(
    registry: seq<EventRecord>, ready: seq<nat>, freed: seq<Reply>, saved: seq<SavedEvent>, loop: bool)

  function Hash(number: nat): (h: nat)
    ensures h < HASH_TABLE_SIZE
  {
    number % HASH_TABLE_SIZE
  }

  const EMPTY_RECORD := EventRecord({}, 0, seq(MAX_DEVICE_NUMBER, i => None))

  function Start(): State {
    State(seq(HASH_TABLE_SIZE, i => EMPTY_RECORD), [], [], [], true)
  }

  /** Devices the filter of register_waveform can tell: it shifts an int. */
  predicate IsMask(mask: set<nat>) {
    mask != {} && forall d :: d in mask ==> d < 31
  }

  /** The record is a table of all devices, and every set bit refers to a payload of that device for its event number. */
  ghost predicate RecordOk(r: EventRecord, mask: set<nat>, h: nat) {
    && |r.data| == MAX_DEVICE_NUMBER && r.bits <= mask
    && (r.bits != {} ==> Hash(r.eventNumber) == h)
    && forall d :: d in r.bits ==> d < MAX_DEVICE_NUMBER && r.data[d].Some? && r.data[d].value.device == d && r.data[d].value.number == r.eventNumber
  }

  ghost predicate Ok(s: State, mask: set<nat>) {
    && |s.registry| == HASH_TABLE_SIZE && |s.ready| <= QUEUE_LENGTH
    && forall h :: 0 <= h < HASH_TABLE_SIZE ==> RecordOk(s.registry[h], mask, h)
  }

  // ----- register_waveform -----

  /** The slot after a payload: added to the event it holds, or in place of it. */
  function Register(r: EventRecord, reply: Reply): EventRecord
    requires reply.device < |r.data|
  {
    var bits := if r.bits == {} || r.eventNumber == reply.number then r.bits + {reply.device} else {reply.device};
    EventRecord(bits, reply.number, r.data[reply.device := Some(reply)])
  }

  /** flag_complete_event: a full stack drops the event. */
  function Flag(ready: seq<nat>, number: nat): seq<nat> {
    if |ready| == QUEUE_LENGTH then ready else ready + [number]
  }

  function Arrive(s: State, mask: set<nat>, reply: Reply): (t: State)
    requires IsMask(mask) && Ok(s, mask) && reply.device < 31
    ensures Ok(t, mask)
  {
    if reply.device !in mask then s.(freed := s.freed + [reply])
    else
      var h := Hash(reply.number);
      var r := Register(s.registry[h], reply);
      s.(registry := s.registry[h := r], ready := if r.bits == mask then Flag(s.ready, reply.number) else s.ready)
  }

  // ----- save_event and free_event -----

  /** The devices of the mask below `n`, in the order in which they are saved and freed. */
  function Devices(mask: set<nat>, n: nat): (ds: seq<nat>)
    ensures forall d :: d in ds <==> d in mask && d < n
    ensures forall i :: 0 <= i < |ds| ==> ds[i] in mask && ds[i] < n
  {
    if n == 0 then [] else Devices(mask, n - 1) + if n - 1 in mask then [n - 1] else []
  }

  lemma {:induction false} DevicesAscend(mask: set<nat>, n: nat)
    ensures var ds := Devices(mask, n); forall i, j :: 0 <= i < j < |ds| ==> ds[i] < ds[j]
    decreases n
  {
    hide Devices;
    if n == 0 {
      Zipper.DevicesNone(mask);
    } else {
      DevicesAscend(mask, n - 1);
      Zipper.DevicesNext(mask, n - 1);
    }
  }

  /** Their payloads; None when one is missing. */
  function Payloads(data: seq<Option<Reply>>, ds: seq<nat>): (r: Option<seq<Reply>>)
    requires forall i :: 0 <= i < |ds| ==> ds[i] < |data|
    ensures r.Some? <==> forall i :: 0 <= i < |ds| ==> data[ds[i]].Some?
    ensures r.Some? ==> |r.value| == |ds| && forall i :: 0 <= i < |ds| ==> data[ds[i]] == Some(r.value[i])
  {
    if ds == [] then Some([])
    else
      var n := |ds| - 1;
      match Payloads(data, ds[..n])
      case None => None
      case Some(ps) => if data[ds[n]].None? then None else Some(ps + [data[ds[n]].value])
  }

  /** One turn of the main loop over a complete event: pop it, save it, free it. A missing payload ends the program. */
  function Serve(s: State, mask: set<nat>): (t: State)
    requires IsMask(mask) && Ok(s, mask)
    ensures Ok(t, mask)
  {
    if s.ready == [] then s
    else
      var number := s.ready[|s.ready| - 1];
      var h := Hash(number);
      var r := s.registry[h];
      var popped := s.(ready := s.ready[..|s.ready| - 1]);
      match Payloads(r.data, Devices(mask, MAX_DEVICE_NUMBER))
      case None => popped.(loop := false)
      case Some(ps) =>
        popped.(registry := s.registry[h := r.(bits := {})],
                saved := s.saved + [SavedEvent(number, if r.bits == mask then 0 else 1, DATA_FORMAT_VERSION, r.bits, ps)],
                freed := s.freed + ps)
  }

  /** A saved event is right: all devices are there, each with its payload for that event. */
  ghost predicate IsRight(e: SavedEvent, mask: set<nat>) {
    && e.status == 0
    && forall i :: 0 <= i < |e.payloads| ==> e.payloads[i].number == e.number
  }

  /** What is saved is right exactly when its slot still is that of the complete event. */
  lemma SavedIsRight(s: State, mask: set<nat>)
    requires IsMask(mask) && Ok(s, mask) && s.ready != []
    ensures
      var number := s.ready[|s.ready| - 1];
      var r := s.registry[Hash(number)];
      |Serve(s, mask).saved| > |s.saved| && IsRight(Serve(s, mask).saved[|s.saved|], mask) <==> r.bits == mask && r.eventNumber == number
  {
    var number := s.ready[|s.ready| - 1];
    var h := Hash(number);
    var r := s.registry[h];
    assert RecordOk(r, mask, h);
    var ds := Devices(mask, MAX_DEVICE_NUMBER);
    var d :| d in mask;
    assert d in ds;
    var i :| 0 <= i < |ds| && ds[i] == d;
    if r.bits == mask {
      var ps := Payloads(r.data, ds).value;
      forall j | 0 <= j < |ds| ensures ps[j].number == r.eventNumber {
        assert ds[j] in mask;
      }
      assert ps[i].number == r.eventNumber;
    }
  }

  // ----- The program -----

  class Zipper {
    const registry: array<EventRecord>
    const eventIds: array<nat>
    const lastSeenEvent: array<nat>
    const mask: set<nat>
    var eventsAvailable: nat
    var freed: seq<Reply>
    var saved: seq<SavedEvent>
    var file: seq<bv8>
    var loop: bool

    /** As long as the program goes on, the file is the events that were saved, one behind the other. */
    ghost predicate FileOk()
      reads this
    {
      loop ==> file == Images(saved)
    }

    ghost predicate Valid()
      reads this, registry, eventIds
    {
      && IsMask(mask) && eventIds.Length == QUEUE_LENGTH && eventsAvailable <= QUEUE_LENGTH
      && lastSeenEvent.Length == MAX_DEVICE_NUMBER
      && eventIds != lastSeenEvent
      && Ok(View(), mask)
    }

    ghost function View(): State
      requires eventsAvailable <= eventIds.Length
      reads this, registry, eventIds
    {
      State(registry[..], eventIds[..eventsAvailable], freed, saved, loop)
    }

    constructor (mask: set<nat> := DEFAULT_EVENT_MASK)
      requires IsMask(mask)
      ensures Valid() && View() == Start() && this.mask == mask && FileOk()
      ensures fresh(registry) && fresh(eventIds) && fresh(lastSeenEvent)
    {
      this.mask := mask;
      registry := new EventRecord[HASH_TABLE_SIZE](i => EMPTY_RECORD);
      eventIds := new nat[QUEUE_LENGTH](i => 0);
      lastSeenEvent := new nat[MAX_DEVICE_NUMBER](i => 0);
      eventsAvailable, freed, saved, file, loop := 0, [], [], [], true;
      new;
      StartIsOk(mask);
      assert registry[..] == Start().registry;
    }

    method FlagCompleteEvent(number: nat)
      requires eventIds.Length == QUEUE_LENGTH && eventsAvailable <= QUEUE_LENGTH
      modifies this`eventsAvailable, eventIds
      ensures eventsAvailable <= QUEUE_LENGTH
      ensures eventIds[..eventsAvailable] == Flag(old(eventIds[..eventsAvailable]), number)
    {
      if eventsAvailable == QUEUE_LENGTH {
        return;
      }
      eventIds[eventsAvailable] := number;
      eventsAvailable := eventsAvailable + 1;
    }

    method PopCompleteEventId() returns (number: nat)
      requires 0 < eventsAvailable <= eventIds.Length
      modifies this`eventsAvailable
      ensures eventsAvailable == old(eventsAvailable) - 1
      ensures eventIds[..eventsAvailable] + [number] == old(eventIds[..eventsAvailable])
    {
      eventsAvailable := eventsAvailable - 1;
      number := eventIds[eventsAvailable];
    }

    /** register_waveform. */
    method RegisterWaveform(reply: Reply)
      requires Valid() && reply.device < 31
      modifies this`eventsAvailable, this`freed, registry, eventIds, lastSeenEvent
      ensures Valid() && View() == Arrive(old(View()), mask, reply)
      ensures lastSeenEvent[..] == if reply.device in mask then old(lastSeenEvent[..])[reply.device := reply.number] else old(lastSeenEvent[..])
    {
      hide Ok, Flag, Hash, Arrive;
      ghost var was := View();
      ArriveIs(was, mask, reply);
      if reply.device !in mask {
        freed := freed + [reply];
        return;
      }
      var h := Hash(reply.number);
      assert |was.registry| == HASH_TABLE_SIZE && |was.registry[h].data| == MAX_DEVICE_NUMBER by { TableIsFull(was, mask, h); }
      lastSeenEvent[reply.device] := reply.number;
      var r := registry[h];
      if r.bits == {} || r.eventNumber == reply.number {
        registry[h] := EventRecord(r.bits + {reply.device}, reply.number, r.data[reply.device := Some(reply)]);
      } else {
        registry[h] := EventRecord({reply.device}, reply.number, r.data[reply.device := Some(reply)]);
      }
      assert registry[..] == was.registry[h := Register(was.registry[h], reply)];
      if registry[h].bits == mask {
        FlagCompleteEvent(reply.number);
      }
    }

    static lemma ArriveIs(s: State, mask: set<nat>, reply: Reply)
      requires IsMask(mask) && Ok(s, mask) && reply.device < 31
      ensures reply.device !in mask ==> Arrive(s, mask, reply) == s.(freed := s.freed + [reply])
      ensures reply.device in mask ==> |s.registry[Hash(reply.number)].data| > reply.device
      ensures reply.device in mask ==>
        var h := Hash(reply.number);
        var r := Register(s.registry[h], reply);
        Arrive(s, mask, reply) == s.(registry := s.registry[h := r], ready := if r.bits == mask then Flag(s.ready, reply.number) else s.ready)
    {
    }

    static lemma TableIsFull(s: State, mask: set<nat>, h: nat)
      requires Ok(s, mask) && h < HASH_TABLE_SIZE
      ensures |s.registry| == HASH_TABLE_SIZE && |s.registry[h].data| == MAX_DEVICE_NUMBER
    {
      assert RecordOk(s.registry[h], mask, h);
    }

    /** The bytes of the header of the event in slot `r`. */
    static function HeaderOf(r: EventRecord, number: nat, mask: set<nat>): seq<bv8> {
      HeaderBytes(number, if r.bits == mask then 0 else 1, DATA_FORMAT_VERSION, r.bits)
    }

    /** The payloads of the devices of the mask below `n`, up to the first one that is missing. */
    static function UpToMissing(data: seq<Option<Reply>>, mask: set<nat>, n: nat): (ps: seq<Reply>)
      requires n <= |data|
      ensures |ps| <= |Devices(mask, n)|
    {
      if n == 0 then []
      else
        var ps := UpToMissing(data, mask, n - 1);
        if n - 1 in mask && data[n - 1].Some? && |ps| == |Devices(mask, n - 1)| then ps + [data[n - 1].value] else ps
    }

    /** None of the devices below `n` lacks its payload, and these are `payloads`. */
    static ghost predicate AllWritten(data: seq<Option<Reply>>, mask: set<nat>, n: nat, payloads: seq<Reply>)
      requires n <= |data|
    {
      Payloads(data, Devices(mask, n)) == Some(payloads) && UpToMissing(data, mask, n) == payloads && |payloads| == |Devices(mask, n)|
    }

    static lemma WriteStarts(data: seq<Option<Reply>>, mask: set<nat>)
      ensures AllWritten(data, mask, 0, [])
    {
      NothingSaved(data, mask);
    }

    static lemma WriteGoesOn(data: seq<Option<Reply>>, mask: set<nat>, i: nat, payloads: seq<Reply>)
      requires i < |data| && AllWritten(data, mask, i, payloads) && (i in mask ==> data[i].Some?)
      ensures AllWritten(data, mask, i + 1, if i in mask then payloads + [data[i].value] else payloads)
    {
      hide Payloads, Devices, UpToMissing;
      SaveNext(data, mask, i);
      WriteNext(data, mask, i);
    }

    static lemma WriteIsDone(data: seq<Option<Reply>>, mask: set<nat>, payloads: seq<Reply>)
      requires |data| == MAX_DEVICE_NUMBER && AllWritten(data, mask, MAX_DEVICE_NUMBER, payloads)
      ensures Payloads(data, Devices(mask, MAX_DEVICE_NUMBER)) == Some(payloads) && UpToMissing(data, mask, MAX_DEVICE_NUMBER) == payloads
    {
      hide Payloads, Devices, UpToMissing;
    }

    static lemma WriteStops(data: seq<Option<Reply>>, mask: set<nat>, i: nat, payloads: seq<Reply>, n: nat)
      requires i < n <= |data| && AllWritten(data, mask, i, payloads) && i in mask && data[i].None?
      ensures Payloads(data, Devices(mask, n)).None? && UpToMissing(data, mask, n) == payloads
    {
      hide Payloads, Devices, UpToMissing;
      SaveNext(data, mask, i);
      WriteNext(data, mask, i);
      SaveNever(data, mask, i + 1, n);
      WriteNoMore(data, mask, i + 1, n);
    }

    /** The payloads of the mask in turn, up to the first one that is missing. */
    method WritePayloads(r: EventRecord) returns (ok: bool, payloads: seq<Reply>)
      requires |r.data| == MAX_DEVICE_NUMBER
      modifies this`loop, this`file
      ensures payloads == UpToMissing(r.data, mask, MAX_DEVICE_NUMBER) && file == old(file) + Bytes(payloads)
      ensures
        var ps := Payloads(r.data, Devices(mask, MAX_DEVICE_NUMBER));
        ok == ps.Some? && (ok ==> payloads == ps.value) && (loop <==> old(loop) && ok)
    {
      hide Payloads, Devices, Bytes, UpToMissing, AllWritten;
      payloads := [];
      WriteStarts(r.data, mask);
      NoBytes(file);
      for i := 0 to MAX_DEVICE_NUMBER
        invariant AllWritten(r.data, mask, i, payloads) && loop == old(loop)
        invariant file == old(file) + Bytes(payloads)
      {
        if i in mask {
          if r.data[i].None? {
            loop := false;
            WriteStops(r.data, mask, i, payloads, MAX_DEVICE_NUMBER);
            return false, payloads;
          }
          WriteGoesOn(r.data, mask, i, payloads);
          MoreBytes(old(file), payloads, r.data[i].value);
          file := file + r.data[i].value.bytes;
          payloads := payloads + [r.data[i].value];
        } else {
          WriteGoesOn(r.data, mask, i, payloads);
        }
      }
      WriteIsDone(r.data, mask, payloads);
      ok := true;
    }

    /**
     save_event: the header, then the payloads of the mask in turn; a missing one ends the program.
     What was written before that stays in the file.
     */
    method SaveEvent(number: nat) returns (ok: bool, event: SavedEvent)
      requires Valid()
      modifies this`loop, this`file
      ensures
        var r := registry[Hash(number)];
        (forall i :: 0 <= i < MAX_DEVICE_NUMBER && i in mask ==> i < |r.data|) &&
        var ps := Payloads(r.data, Devices(mask, MAX_DEVICE_NUMBER));
        && ok == ps.Some? && (loop <==> old(loop) && ok)
        && (ok ==> event == SavedEvent(number, if r.bits == mask then 0 else 1, DATA_FORMAT_VERSION, r.bits, ps.value))
        && (ok ==> file == old(file) + event.Image())
        && |r.data| == MAX_DEVICE_NUMBER
        && file == old(file) + HeaderOf(r, number, mask) + Bytes(UpToMissing(r.data, mask, MAX_DEVICE_NUMBER))
      ensures
        var r := registry[Hash(number)];
        && old(file) <= file && IsHeaderAt(file, |old(file)|, number, r.bits == mask, r.bits)
        && file[|old(file)| + 16..] == Bytes(UpToMissing(r.data, mask, MAX_DEVICE_NUMBER))
        && (ok ==> file[|old(file)| + 16..] == Bytes(event.payloads))
    {
      hide Payloads, Devices, Hash, HeaderBytes, HeaderOf, Bytes, UpToMissing, IsHeaderAt, SavedEvent.Image, Ok, IsMask;
      TableIsFull(View(), mask, Hash(number));
      var r := registry[Hash(number)];
      file := file + HeaderOf(r, number, mask);
      var payloads;
      ok, payloads := WritePayloads(r);
      event := SavedEvent(number, if r.bits == mask then 0 else 1, DATA_FORMAT_VERSION, r.bits, payloads);
      ImageIs(old(file), r, number, mask, event);
      HeaderIsThere(old(file), r, number, mask, Bytes(payloads));
    }

    static lemma HeaderIsThere(before: seq<bv8>, r: EventRecord, number: nat, mask: set<nat>, behind: seq<bv8>)
      ensures
        var file := before + HeaderOf(r, number, mask) + behind;
        before <= file && IsHeaderAt(file, |before|, number, r.bits == mask, r.bits) && file[|before| + 16..] == behind
    {
      hide HeaderBytes, IsHeaderAt;
      HeaderReadsBack(number, r.bits == mask, r.bits);
      HeaderInFile(before, HeaderOf(r, number, mask), behind, number, r.bits == mask, r.bits);
    }

    static lemma ImageIs(before: seq<bv8>, r: EventRecord, number: nat, mask: set<nat>, event: SavedEvent)
      requires event == SavedEvent(number, if r.bits == mask then 0 else 1, DATA_FORMAT_VERSION, r.bits, event.payloads)
      ensures before + HeaderOf(r, number, mask) + Bytes(event.payloads) == before + event.Image()
    {
      hide HeaderBytes, Bytes;
    }

    static lemma NoBytes(before: seq<bv8>)
      ensures before + Bytes([]) == before
    {
    }

    static lemma MoreBytes(before: seq<bv8>, ps: seq<Reply>, reply: Reply)
      ensures before + Bytes(ps) + reply.bytes == before + Bytes(ps + [reply])
    {
      assert (ps + [reply])[..|ps|] == ps;
    }

    static lemma WriteNext(data: seq<Option<Reply>>, mask: set<nat>, i: nat)
      requires i < |data|
      ensures |Devices(mask, i + 1)| == |Devices(mask, i)| + if i in mask then 1 else 0
      ensures
        var ps := UpToMissing(data, mask, i);
        UpToMissing(data, mask, i + 1) == if i in mask && data[i].Some? && |ps| == |Devices(mask, i)| then ps + [data[i].value] else ps
    {
    }

    /** Behind a missing payload nothing more is written. */
    static lemma {:induction false} WriteNoMore(data: seq<Option<Reply>>, mask: set<nat>, i: nat, n: nat)
      requires i <= n <= |data| && |UpToMissing(data, mask, i)| < |Devices(mask, i)|
      ensures |UpToMissing(data, mask, n)| < |Devices(mask, n)| && UpToMissing(data, mask, n) == UpToMissing(data, mask, i)
      decreases n
    {
      hide UpToMissing, Devices;
      if i < n {
        WriteNoMore(data, mask, i, n - 1);
        WriteNext(data, mask, n - 1);
      }
    }

    /** The payload of one device after the other; the device behind the last one has none. */
    static ghost predicate AreUpToMissing(data: seq<Option<Reply>>, ds: seq<nat>, ps: seq<Reply>)
      requires forall i :: 0 <= i < |ds| ==> ds[i] < |data|
    {
      && |ps| <= |ds|
      && (forall i :: 0 <= i < |ps| ==> data[ds[i]] == Some(ps[i]))
      && (|ps| < |ds| ==> data[ds[|ps|]].None?)
    }

    static lemma {:induction false} WrittenAre(data: seq<Option<Reply>>, mask: set<nat>, n: nat)
      requires n <= |data|
      ensures AreUpToMissing(data, Devices(mask, n), UpToMissing(data, mask, n))
      decreases n
    {
      hide UpToMissing, Devices;
      if n == 0 {
        NothingSaved(data, mask);
      } else {
        WrittenAre(data, mask, n - 1);
        WriteNext(data, mask, n - 1);
        DevicesNext(mask, n - 1);
        hide AreUpToMissing;
        if n - 1 in mask {
          WrittenNext(data, Devices(mask, n - 1), UpToMissing(data, mask, n - 1), n - 1, Devices(mask, n), UpToMissing(data, mask, n));
        } else {
          assert Devices(mask, n) == Devices(mask, n - 1);
        }
      }
    }

    static lemma WrittenNext(data: seq<Option<Reply>>, ds: seq<nat>, ps: seq<Reply>, d: nat, ds': seq<nat>, ps': seq<Reply>)
      requires d < |data| && forall i :: 0 <= i < |ds| ==> ds[i] < |data|
      requires AreUpToMissing(data, ds, ps)
      requires ds' == ds + [d] && ps' == if data[d].Some? && |ps| == |ds| then ps + [data[d].value] else ps
      ensures AreUpToMissing(data, ds', ps')
    {
    }

    static lemma DevicesNone(mask: set<nat>)
      ensures Devices(mask, 0) == []
    {
    }

    static lemma DevicesNext(mask: set<nat>, n: nat)
      ensures Devices(mask, n + 1) == Devices(mask, n) + if n in mask then [n] else []
    {
    }

    static lemma NothingSaved(data: seq<Option<Reply>>, mask: set<nat>)
      ensures Devices(mask, 0) == [] && Payloads(data, Devices(mask, 0)) == Some([]) && UpToMissing(data, mask, 0) == []
    {
    }

    static lemma SaveNext(data: seq<Option<Reply>>, mask: set<nat>, i: nat)
      requires i < |data|
      ensures
        var ps := Payloads(data, Devices(mask, i));
        Payloads(data, Devices(mask, i + 1)) ==
          if i !in mask || ps.None? then ps else if data[i].None? then None else Some(ps.value + [data[i].value])
    {
      var ds := Devices(mask, i);
      if i in mask {
        assert Devices(mask, i + 1) == ds + [i];
        assert (ds + [i])[..|ds|] == ds;
      } else {
        assert Devices(mask, i + 1) == ds;
      }
    }

    /** A payload that is missing stays missing. */
    static lemma {:induction false} SaveNever(data: seq<Option<Reply>>, mask: set<nat>, i: nat, n: nat)
      requires i <= n <= |data| && Payloads(data, Devices(mask, i)).None?
      ensures Payloads(data, Devices(mask, n)).None?
      decreases n
    {
      hide Payloads, Devices;
      if i < n {
        SaveNever(data, mask, i, n - 1);
        SaveNext(data, mask, n - 1);
      }
    }

    static lemma AllThere(data: seq<Option<Reply>>, mask: set<nat>)
      requires |data| == MAX_DEVICE_NUMBER && Payloads(data, Devices(mask, MAX_DEVICE_NUMBER)).Some?
      ensures forall i :: 0 <= i < MAX_DEVICE_NUMBER && i in mask ==> data[i].Some?
    {
      var ds := Devices(mask, MAX_DEVICE_NUMBER);
      hide Payloads, Devices;
      forall i | 0 <= i < MAX_DEVICE_NUMBER && i in mask ensures data[i].Some? {
        assert i in ds;
        var j :| 0 <= j < |ds| && ds[j] == i;
      }
    }

    /** free_event: the payloads of the mask in turn; the slot is empty from then on. */
    method FreeEvent(number: nat, ghost ps: seq<Reply>)
      requires Valid()
      requires (forall i :: 0 <= i < MAX_DEVICE_NUMBER && i in mask ==> i < |registry[Hash(number)].data|)
      requires Payloads(registry[Hash(number)].data, Devices(mask, MAX_DEVICE_NUMBER)) == Some(ps)
      modifies this`freed, registry
      ensures freed == old(freed) + ps
      ensures registry[..] == old(registry[..])[Hash(number) := old(registry[Hash(number)]).(bits := {})]
    {
      hide Payloads, Devices, Hash;
      var h := Hash(number);
      TableIsFull(View(), mask, h);
      var data := registry[h].data;
      NothingSaved(data, mask);
      AllThere(data, mask);
      registry[h] := registry[h].(bits := {});
      for i := 0 to MAX_DEVICE_NUMBER
        invariant registry[..] == old(registry[..])[h := old(registry[h]).(bits := {})]
        invariant Payloads(data, Devices(mask, i)).Some? && freed == old(freed) + Payloads(data, Devices(mask, i)).value
      {
        SaveNext(data, mask, i);
        if i in mask && data[i].Some? {
          freed := freed + [data[i].value];
        }
      }
    }

    /** What the main loop does when an event is available: pop it, save it, and free it unless saving failed. */
    method ServeEvent()
      requires Valid() && FileOk() && eventsAvailable > 0
      modifies this, registry
      ensures Valid() && View() == Serve(old(View()), mask)
      ensures FileOk() && old(file) <= file
      ensures
        var number := old(eventIds[eventsAvailable - 1]);
        var r := old(registry[..])[Hash(number)];
        && IsHeaderAt(file, |old(file)|, number, r.bits == mask, r.bits)
        && (loop ==> saved != [] && file[|old(file)| + 16..] == Bytes(saved[|saved| - 1].payloads))
    {
      hide Payloads, Devices, Hash, Ok, Serve, Images, SavedEvent.Image, HeaderOf, Bytes, UpToMissing, IsHeaderAt;
      ghost var was := View();
      var number := PopCompleteEventId();
      assert was.ready[|was.ready| - 1] == number && was.ready[..|was.ready| - 1] == eventIds[..eventsAvailable];
      PoppedIsOk(was, View(), mask);
      TableIsFull(was, mask, Hash(number));
      ServeIs(was, mask);
      ghost var ps := Payloads(registry[Hash(number)].data, Devices(mask, MAX_DEVICE_NUMBER));
      var ok, event := SaveEvent(number);
      if !ok {
        return;
      }
      MoreImages(saved, event);
      saved := saved + [event];
      PoppedIsOk(was, View(), mask);
      FreeEvent(number, ps.value);
    }

    static lemma MoreImages(saved: seq<SavedEvent>, event: SavedEvent)
      ensures Images(saved + [event]) == Images(saved) + event.Image()
    {
      assert (saved + [event])[..|saved|] == saved;
    }

    static lemma ServeIs(s: State, mask: set<nat>)
      requires IsMask(mask) && Ok(s, mask) && s.ready != []
      ensures
        var number := s.ready[|s.ready| - 1];
        var r, popped := s.registry[Hash(number)], s.(ready := s.ready[..|s.ready| - 1]);
        |r.data| == MAX_DEVICE_NUMBER &&
        var ps := Payloads(r.data, Devices(mask, MAX_DEVICE_NUMBER));
        Serve(s, mask) ==
          if ps.None? then popped.(loop := false)
          else popped.(registry := s.registry[Hash(number) := r.(bits := {})],
                       saved := s.saved + [SavedEvent(number, if r.bits == mask then 0 else 1, DATA_FORMAT_VERSION, r.bits, ps.value)],
                       freed := s.freed + ps.value)
    {
      assert RecordOk(s.registry[Hash(s.ready[|s.ready| - 1])], mask, Hash(s.ready[|s.ready| - 1]));
    }

    static lemma PoppedIsOk(s: State, t: State, mask: set<nat>)
      requires Ok(s, mask) && t.registry == s.registry && |t.ready| <= |s.ready|
      ensures Ok(t, mask)
    {
    }
  }

  // ----- The map that the registry stands for -----

  /** Events in progress, each with the payloads of its devices. */
  datatype Events = Events(live: map<nat, map<nat, Reply>>, ready: seq<nat>, freed: seq<Reply>, saved: seq<SavedEvent>)
  {
    function Of(number: nat): map<nat, Reply> {
      if number in live then live[number] else map[]
    }
  }

  predicate NoDuplicates<T(==)>(s: seq<T>) {
    forall i, j :: 0 <= i < j < |s| ==> s[i] != s[j]
  }

  /** Ready are the complete events, once each. */
  ghost predicate EventsOk(e: Events, mask: set<nat>) {
    && NoDuplicates(e.ready)
    && (forall n :: n in e.live ==> e.live[n].Keys != {} && (e.live[n].Keys == mask <==> n in e.ready))
    && (forall n :: n in e.ready ==> n in e.live)
  }

  function ArriveMap(e: Events, mask: set<nat>, reply: Reply): Events {
    if reply.device !in mask then e.(freed := e.freed + [reply])
    else
      var has := e.Of(reply.number)[reply.device := reply];
      e.(live := e.live[reply.number := has], ready := if has.Keys == mask then e.ready + [reply.number] else e.ready)
  }

  function PayloadsOf(has: map<nat, Reply>, ds: seq<nat>): (ps: seq<Reply>)
    requires forall i :: 0 <= i < |ds| ==> ds[i] in has
    ensures |ps| == |ds| && forall i :: 0 <= i < |ds| ==> ps[i] == has[ds[i]]
  {
    seq(|ds|, i requires 0 <= i < |ds| => has[ds[i]])
  }

  function ServeMap(e: Events, mask: set<nat>): Events
    requires EventsOk(e, mask)
  {
    if e.ready == [] then e
    else
      var number := e.ready[|e.ready| - 1];
      assert number in e.ready;
      var ps := PayloadsOf(e.live[number], Devices(mask, MAX_DEVICE_NUMBER));
      Events(e.live - {number}, e.ready[..|e.ready| - 1], e.freed + ps, e.saved + [SavedEvent(number, 0, DATA_FORMAT_VERSION, mask, ps)])
  }

  /** A payload the registry can take: its device has not sent that number, no other live event has its number modulo 1000, and the stack has room for a hundred if it completes its event. */
  ghost predicate Admissible(e: Events, mask: set<nat>, reply: Reply) {
    reply.device in mask ==>
      && reply.device !in e.Of(reply.number)
      && (forall m :: m in e.live && m != reply.number ==> m % 1000 != reply.number % 1000)
      && (e.Of(reply.number)[reply.device := reply].Keys == mask ==> |e.ready| < 100)
  }

  /** The record is the slot of live event `n`. */
  ghost predicate Holds(r: EventRecord, n: nat, has: map<nat, Reply>) {
    && r.eventNumber == n && r.bits == has.Keys
    && forall d :: d in has ==> d < |r.data| && r.data[d] == Some(has[d])
  }

  /** Every live event is in its slot, and nothing else is in any. */
  ghost predicate AreInSlots(registry: seq<EventRecord>, live: map<nat, map<nat, Reply>>)
    requires |registry| == HASH_TABLE_SIZE
  {
    && (forall n :: n in live ==> Holds(registry[Hash(n)], n, live[n]))
    && (forall h :: 0 <= h < HASH_TABLE_SIZE && registry[h].bits != {} ==> registry[h].eventNumber in live)
  }

  ghost predicate Coupled(s: State, e: Events, mask: set<nat>) {
    && Ok(s, mask) && EventsOk(e, mask)
    && s.ready == e.ready && s.freed == e.freed && s.saved == e.saved && s.loop
    && AreInSlots(s.registry, e.live)
  }

  /** A slot that holds an event holds the one it is marked with. */
  lemma SlotOwner(s: State, e: Events, mask: set<nat>, h: nat)
    requires Coupled(s, e, mask) && h < HASH_TABLE_SIZE && s.registry[h].bits != {}
    ensures s.registry[h].eventNumber in e.live && Hash(s.registry[h].eventNumber) == h
  {
    assert RecordOk(s.registry[h], mask, h);
  }

  lemma SlotsApart(s: State, e: Events, mask: set<nat>, m: nat, n: nat)
    requires Coupled(s, e, mask) && m in e.live && n in e.live && m != n
    ensures Hash(m) != Hash(n)
  {
    assert Holds(s.registry[Hash(m)], m, e.live[m]) && Holds(s.registry[Hash(n)], n, e.live[n]);
  }

  /** The slot of an admissible payload is empty, or that of its event. */
  lemma RegisterHolds(s: State, e: Events, mask: set<nat>, reply: Reply)
    requires Coupled(s, e, mask) && Admissible(e, mask, reply) && reply.device in mask && reply.device < MAX_DEVICE_NUMBER
    ensures Holds(Register(s.registry[Hash(reply.number)], reply), reply.number, e.Of(reply.number)[reply.device := reply])
  {
    var n, h := reply.number, Hash(reply.number);
    var r := s.registry[h];
    if n in e.live {
      assert Holds(r, n, e.live[n]);
    } else if r.bits != {} {
      SlotOwner(s, e, mask, h);
      assert false;
    }
    assert RecordOk(r, mask, h);
  }

  lemma ArriveKeepsEvents(e: Events, mask: set<nat>, reply: Reply)
    requires EventsOk(e, mask) && Admissible(e, mask, reply)
    ensures EventsOk(ArriveMap(e, mask, reply), mask)
  {
  }

  lemma SlotsAfterArrive(s: State, e: Events, mask: set<nat>, number: nat, r: EventRecord, has: map<nat, Reply>)
    requires Coupled(s, e, mask) && Holds(r, number, has)
    requires forall m :: m in e.live && m != number ==> Hash(m) != Hash(number)
    ensures AreInSlots(s.registry[Hash(number) := r], e.live[number := has])
  {
    assert |s.registry| == HASH_TABLE_SIZE;
    HoldsItsNumber(r, number, has);
    hide Holds, EventsOk, Ok;
  }

  lemma HoldsItsNumber(r: EventRecord, n: nat, has: map<nat, Reply>)
    requires Holds(r, n, has)
    ensures r.eventNumber == n
  {
  }

  lemma ArriveResult(s: State, e: Events, mask: set<nat>, reply: Reply)
    requires IsMask(mask) && Coupled(s, e, mask) && Admissible(e, mask, reply) && reply.device in mask && reply.device < 31
    ensures
      var h, has := Hash(reply.number), e.Of(reply.number)[reply.device := reply];
      |s.registry[h].data| == MAX_DEVICE_NUMBER &&
      Arrive(s, mask, reply) == s.(registry := s.registry[h := Register(s.registry[h], reply)],
                                   ready := if has.Keys == mask then s.ready + [reply.number] else s.ready)
  {
    Zipper.TableIsFull(s, mask, Hash(reply.number));
    RegisterHolds(s, e, mask, reply);
    hide Hash, Coupled;
  }

  /** register_waveform does to the registry what its premises let it do to the map. */
  lemma ArriveRefines(s: State, e: Events, mask: set<nat>, reply: Reply)
    requires IsMask(mask) && Coupled(s, e, mask) && Admissible(e, mask, reply) && reply.device < 31
    ensures Coupled(Arrive(s, mask, reply), ArriveMap(e, mask, reply), mask)
  {
    ArriveKeepsEvents(e, mask, reply);
    if reply.device in mask {
      var h, has := Hash(reply.number), e.Of(reply.number)[reply.device := reply];
      RegisterHolds(s, e, mask, reply);
      ArriveResult(s, e, mask, reply);
      SlotsAfterArrive(s, e, mask, reply.number, Register(s.registry[h], reply), has);
      hide Register, Hash, Holds, AreInSlots, Arrive, EventsOk, Events.Of, RecordOk, IsMask;
    }
  }

  lemma ServeKeepsEvents(e: Events, mask: set<nat>)
    requires EventsOk(e, mask)
    ensures EventsOk(ServeMap(e, mask), mask)
  {
    if e.ready != [] {
      var k := |e.ready| - 1;
      forall n | n in e.live && n != e.ready[k] && n in e.ready ensures n in e.ready[..k] {
        var i :| 0 <= i < |e.ready| && e.ready[i] == n;
        assert e.ready[..k][i] == n;
      }
      forall n | n in e.ready[..k] ensures n in e.ready && n != e.ready[k] {
        var i :| 0 <= i < k && e.ready[i] == n;
      }
    }
  }

  lemma {:induction false} PayloadsHeld(r: EventRecord, n: nat, has: map<nat, Reply>, ds: seq<nat>)
    requires Holds(r, n, has) && forall i :: 0 <= i < |ds| ==> ds[i] in has
    ensures (forall i :: 0 <= i < |ds| ==> ds[i] < |r.data|) && Payloads(r.data, ds) == Some(PayloadsOf(has, ds))
  {
    forall i | 0 <= i < |ds| ensures ds[i] < |r.data| && r.data[ds[i]] == Some(has[ds[i]]) {
      assert ds[i] in has;
    }
    hide Payloads, Holds;
    assert Payloads(r.data, ds).value == PayloadsOf(has, ds);
  }

  lemma ServeResult(s: State, e: Events, mask: set<nat>)
    requires IsMask(mask) && Coupled(s, e, mask) && e.ready != []
    ensures
      var number := e.ready[|e.ready| - 1];
      number in e.live && e.live[number].Keys == mask &&
      var r, ps := s.registry[Hash(number)], PayloadsOf(e.live[number], Devices(mask, MAX_DEVICE_NUMBER));
      Serve(s, mask) == s.(registry := s.registry[Hash(number) := r.(bits := {})], ready := s.ready[..|s.ready| - 1],
                           saved := s.saved + [SavedEvent(number, 0, DATA_FORMAT_VERSION, mask, ps)], freed := s.freed + ps)
  {
    hide Payloads, Devices, Hash;
    var number := e.ready[|e.ready| - 1];
    assert number in e.ready;
    PayloadsHeld(s.registry[Hash(number)], number, e.live[number], Devices(mask, MAX_DEVICE_NUMBER));
  }

  lemma SlotsAfterServe(s: State, e: Events, mask: set<nat>, number: nat)
    requires Coupled(s, e, mask) && number in e.live
    ensures AreInSlots(s.registry[Hash(number) := s.registry[Hash(number)].(bits := {})], e.live - {number})
  {
    hide Holds, EventsOk;
    forall n | n in e.live && n != number ensures Hash(n) != Hash(number) {
      SlotsApart(s, e, mask, n, number);
    }
    forall h | 0 <= h < HASH_TABLE_SIZE && s.registry[h].bits != {} ensures Hash(s.registry[h].eventNumber) == h {
      SlotOwner(s, e, mask, h);
    }
  }

  /** A turn over a complete event does to the registry what it does to the map. */
  lemma ServeRefines(s: State, e: Events, mask: set<nat>)
    requires IsMask(mask) && Coupled(s, e, mask)
    ensures Coupled(Serve(s, mask), ServeMap(e, mask), mask)
  {
    ServeKeepsEvents(e, mask);
    if e.ready != [] {
      ServeResult(s, e, mask);
      SlotsAfterServe(s, e, mask, e.ready[|e.ready| - 1]);
      hide Serve, Hash, AreInSlots, RecordOk, Devices, PayloadsOf, EventsOk, IsMask;
      var t, f := Serve(s, mask), ServeMap(e, mask);
      assert Ok(t, mask) && EventsOk(f, mask);
      assert t.ready == f.ready && t.freed == f.freed && t.saved == f.saved;
    }
  }

  // ----- Whole runs -----

  datatype Input = Arrival(reply: Reply) | Turn

  const NO_EVENTS := Events(map[], [], [], [])

  ghost predicate AreInputs(ins: seq<Input>) {
    forall i :: 0 <= i < |ins| && ins[i].Arrival? ==> ins[i].reply.device < 31
  }

  function Run(mask: set<nat>, ins: seq<Input>): (s: State)
    requires IsMask(mask) && AreInputs(ins)
    ensures Ok(s, mask)
  {
    hide Ok, Arrive, Serve;
    if ins == [] then
      StartIsOk(mask);
      Start()
    else
      var s, last := Run(mask, ins[..|ins| - 1]), ins[|ins| - 1];
      if last.Arrival? then Arrive(s, mask, last.reply) else Serve(s, mask)
  }

  lemma StartIsOk(mask: set<nat>)
    ensures Ok(Start(), mask)
  {
  }

  /** Every payload can be taken when it comes. */
  ghost predicate AreAdmissible(mask: set<nat>, ins: seq<Input>) {
    ins != [] ==>
      && AreAdmissible(mask, ins[..|ins| - 1])
      && (ins[|ins| - 1].Arrival? ==> Admissible(RunMap(mask, ins[..|ins| - 1]), mask, ins[|ins| - 1].reply))
  }

  /** The same run on the map. */
  ghost function RunMap(mask: set<nat>, ins: seq<Input>): Events {
    if ins == [] then NO_EVENTS
    else
      var e, last := RunMap(mask, ins[..|ins| - 1]), ins[|ins| - 1];
      if last.Arrival? then ArriveMap(e, mask, last.reply)
      else if EventsOk(e, mask) then ServeMap(e, mask) else e
  }

  /** In a whole run the registry stays in step with the map, as long as its premises hold. */
  lemma {:induction false} RunRefines(mask: set<nat>, ins: seq<Input>)
    requires IsMask(mask) && AreInputs(ins) && AreAdmissible(mask, ins)
    ensures Coupled(Run(mask, ins), RunMap(mask, ins), mask)
    decreases |ins|
  {
    if ins == [] {
      StartIsOk(mask);
    } else {
      hide Coupled, Admissible, Arrive, Serve, ArriveMap, ServeMap, EventsOk, IsMask;
      var n := |ins| - 1;
      RunRefines(mask, ins[..n]);
      if ins[n].Arrival? {
        ArriveRefines(Run(mask, ins[..n]), RunMap(mask, ins[..n]), mask, ins[n].reply);
      } else {
        ServeRefines(Run(mask, ins[..n]), RunMap(mask, ins[..n]), mask);
      }
    }
  }

  // ----- What becomes of the payloads -----

  function Arrived(ins: seq<Input>): seq<Reply> {
    if ins == [] then []
    else Arrived(ins[..|ins| - 1]) + if ins[|ins| - 1].Arrival? then [ins[|ins| - 1].reply] else []
  }

  /** No device sends a number twice. */
  ghost predicate OncePerDevice(replies: seq<Reply>) {
    forall i, j :: 0 <= i < j < |replies| ==> replies[i].device != replies[j].device || replies[i].number != replies[j].number
  }

  predicate IsHeld(e: Events, r: Reply) {
    r.number in e.live && r.device in e.live[r.number] && e.live[r.number][r.device] == r
  }

  ghost predicate IsSaved(e: Events, number: nat) {
    exists i :: 0 <= i < |e.saved| && e.saved[i].number == number
  }

  /** Live events hold payloads of their own, of devices of the mask. */
  ghost predicate AreTyped(e: Events, mask: set<nat>) {
    forall n :: n in e.live ==> e.live[n].Keys <= mask && forall d :: d in e.live[n] ==> e.live[n][d].number == n && e.live[n][d].device == d
  }

  /** Every payload that has arrived is held, or has been freed, once. */
  ghost predicate IsConserved(arrived: seq<Reply>, e: Events) {
    && (forall r :: r in arrived <==> r in e.freed || IsHeld(e, r))
    && (forall r :: r in e.freed ==> !IsHeld(e, r))
    && NoDuplicates(e.freed)
  }

  /** A saved event has, for each device of the mask in turn, the payload that arrived for it. */
  ghost predicate IsComplete(arrived: seq<Reply>, mask: set<nat>, v: SavedEvent) {
    v.status == 0 && v.version == DATA_FORMAT_VERSION && v.deviceMask == mask && AreFor(arrived, Devices(mask, MAX_DEVICE_NUMBER), v.number, v.payloads)
  }

  ghost predicate AreFor(arrived: seq<Reply>, ds: seq<nat>, number: nat, ps: seq<Reply>) {
    && |ps| == |ds|
    && forall i :: 0 <= i < |ds| ==> ps[i] in arrived && ps[i].device == ds[i] && ps[i].number == number
  }

  ghost predicate AreSaved(arrived: seq<Reply>, e: Events, mask: set<nat>) {
    && (forall i :: 0 <= i < |e.saved| ==> IsComplete(arrived, mask, e.saved[i]))
    && (forall i, j :: 0 <= i < j < |e.saved| ==> e.saved[i].number != e.saved[j].number)
    && (forall n :: n in e.live ==> !IsSaved(e, n))
    && (forall r :: r in arrived && r.device in mask ==> IsHeld(e, r) || IsSaved(e, r.number))
  }

  lemma DevicesAreDistinct(mask: set<nat>, n: nat)
    ensures NoDuplicates(Devices(mask, n))
  {
  }

  lemma {:induction false} TypedStep(e: Events, mask: set<nat>, input: Input)
    requires EventsOk(e, mask) && AreTyped(e, mask)
    ensures AreTyped(ArriveMap(e, mask, if input.Arrival? then input.reply else Reply(0, 0, 0, [])), mask)
    ensures AreTyped(ServeMap(e, mask), mask)
  {
    ServeTyped(e, mask);
    hide ServeMap, EventsOk;
  }

  lemma {:induction false} ServeTyped(e: Events, mask: set<nat>)
    requires EventsOk(e, mask) && AreTyped(e, mask)
    ensures AreTyped(ServeMap(e, mask), mask)
  {
    hide Devices, PayloadsOf;
  }

  lemma {:induction false} ArriveConserves(arrived: seq<Reply>, e: Events, mask: set<nat>, reply: Reply)
    requires IsConserved(arrived, e) && AreTyped(e, mask) && Admissible(e, mask, reply) && reply !in arrived
    ensures IsConserved(arrived + [reply], ArriveMap(e, mask, reply))
  {
    var f := ArriveMap(e, mask, reply);
    forall r ensures IsHeld(f, r) <==> IsHeld(e, r) || (r == reply && reply.device in mask) {
    }
  }

  /** The payloads that are freed are those held for the event. */
  lemma {:induction false} HeldPayloads(e: Events, mask: set<nat>, number: nat, ps: seq<Reply>)
    requires AreTyped(e, mask) && number in e.live && e.live[number].Keys == mask && forall d :: d in mask ==> d < 31
    requires ps == PayloadsOf(e.live[number], Devices(mask, MAX_DEVICE_NUMBER))
    ensures AreOf(e, Devices(mask, MAX_DEVICE_NUMBER), number, ps)
    ensures forall r :: r in ps <==> IsHeld(e, r) && r.number == number
    ensures NoDuplicates(ps)
  {
    var ds := Devices(mask, MAX_DEVICE_NUMBER);
    DevicesAreDistinct(mask, MAX_DEVICE_NUMBER);
    hide Devices;
    forall r | IsHeld(e, r) && r.number == number ensures r in ps {
      var i :| 0 <= i < |ds| && ds[i] == r.device;
      assert ps[i] == r;
    }
    forall i, j | 0 <= i < j < |ps| ensures ps[i] != ps[j] {
      assert ps[i].device == ds[i] && ps[j].device == ds[j];
    }
  }

  ghost predicate AreOf(e: Events, ds: seq<nat>, number: nat, ps: seq<Reply>) {
    |ps| == |ds| && forall i :: 0 <= i < |ds| ==> IsHeld(e, ps[i]) && ps[i].device == ds[i] && ps[i].number == number
  }

  lemma FreeConserves(arrived: seq<Reply>, e: Events, f: Events, number: nat, ps: seq<Reply>)
    requires IsConserved(arrived, e) && NoDuplicates(ps)
    requires f.live == e.live - {number} && f.freed == e.freed + ps
    requires forall r :: r in ps <==> IsHeld(e, r) && r.number == number
    ensures IsConserved(arrived, f)
  {
    forall i, j | 0 <= i < j < |f.freed| ensures f.freed[i] != f.freed[j] {
      if i < |e.freed| <= j {
        assert e.freed[i] in e.freed && ps[j - |e.freed|] in ps;
      }
    }
  }

  lemma {:induction false} ServeConserves(arrived: seq<Reply>, e: Events, mask: set<nat>)
    requires IsConserved(arrived, e) && AreTyped(e, mask) && EventsOk(e, mask) && forall d :: d in mask ==> d < 31
    ensures IsConserved(arrived, ServeMap(e, mask))
  {
    if e.ready != [] {
      hide Devices, PayloadsOf, IsConserved, IsHeld, AreTyped;
      var number := e.ready[|e.ready| - 1];
      assert number in e.ready;
      var ps := PayloadsOf(e.live[number], Devices(mask, MAX_DEVICE_NUMBER));
      HeldPayloads(e, mask, number, ps);
      FreeConserves(arrived, e, ServeMap(e, mask), number, ps);
    }
  }

  /** All devices of a saved event have sent their payload. */
  lemma SavedHasArrived(arrived: seq<Reply>, e: Events, mask: set<nat>, number: nat, d: nat)
    requires AreSaved(arrived, e, mask) && IsSaved(e, number) && d in mask && d < MAX_DEVICE_NUMBER
    ensures exists r :: r in arrived && r.device == d && r.number == number
  {
    var i :| 0 <= i < |e.saved| && e.saved[i].number == number;
    var ds := Devices(mask, MAX_DEVICE_NUMBER);
    assert IsComplete(arrived, mask, e.saved[i]);
    assert d in ds;
    var j :| 0 <= j < |ds| && ds[j] == d;
    assert e.saved[i].payloads[j] in arrived;
  }

  lemma OnceMore(arrived: seq<Reply>, reply: Reply, r: Reply)
    requires OncePerDevice(arrived + [reply]) && r in arrived
    ensures r.device != reply.device || r.number != reply.number
  {
    var i :| 0 <= i < |arrived| && arrived[i] == r;
    assert (arrived + [reply])[i] == r && (arrived + [reply])[|arrived|] == reply;
  }

  lemma NotSavedYet(arrived: seq<Reply>, e: Events, mask: set<nat>, reply: Reply)
    requires AreSaved(arrived, e, mask) && OncePerDevice(arrived + [reply]) && reply.device in mask && reply.device < MAX_DEVICE_NUMBER
    ensures !IsSaved(e, reply.number)
  {
    hide AreSaved, OncePerDevice;
    if IsSaved(e, reply.number) {
      SavedHasArrived(arrived, e, mask, reply.number, reply.device);
      var r :| r in arrived && r.device == reply.device && r.number == reply.number;
      OnceMore(arrived, reply, r);
    }
  }

  lemma {:induction false} ArriveSaves(arrived: seq<Reply>, e: Events, mask: set<nat>, reply: Reply)
    requires AreSaved(arrived, e, mask) && Admissible(e, mask, reply)
    requires OncePerDevice(arrived + [reply])
    requires forall d :: d in mask ==> d < 31
    ensures AreSaved(arrived + [reply], ArriveMap(e, mask, reply), mask)
  {
    var f := ArriveMap(e, mask, reply);
    if reply.device in mask {
      NotSavedYet(arrived, e, mask, reply);
      hide AreFor, Devices;
      forall i | 0 <= i < |f.saved| ensures IsComplete(arrived + [reply], mask, f.saved[i]) {
        assert IsComplete(arrived, mask, e.saved[i]);
        MoreHasArrived(arrived, reply, Devices(mask, MAX_DEVICE_NUMBER), f.saved[i].number, f.saved[i].payloads);
      }
      forall r | r in arrived + [reply] && r.device in mask ensures IsHeld(f, r) || IsSaved(f, r.number) {
        if r in arrived {
          assert IsHeld(e, r) || IsSaved(e, r.number);
        }
      }
    } else {
      hide AreFor, Devices;
      forall i | 0 <= i < |f.saved| ensures IsComplete(arrived + [reply], mask, f.saved[i]) {
        assert IsComplete(arrived, mask, e.saved[i]);
        MoreHasArrived(arrived, reply, Devices(mask, MAX_DEVICE_NUMBER), f.saved[i].number, f.saved[i].payloads);
      }
    }
  }

  lemma MoreHasArrived(arrived: seq<Reply>, reply: Reply, ds: seq<nat>, number: nat, ps: seq<Reply>)
    requires AreFor(arrived, ds, number, ps)
    ensures AreFor(arrived + [reply], ds, number, ps)
  {
  }

  lemma SaveSaves(arrived: seq<Reply>, e: Events, f: Events, mask: set<nat>, v: SavedEvent)
    requires AreSaved(arrived, e, mask) && v.number in e.live && IsComplete(arrived, mask, v)
    requires f.live == e.live - {v.number} && f.saved == e.saved + [v]
    ensures AreSaved(arrived, f, mask)
  {
    hide IsComplete;
    forall n ensures IsSaved(f, n) <==> IsSaved(e, n) || n == v.number {
      if IsSaved(e, n) {
        var i :| 0 <= i < |e.saved| && e.saved[i].number == n;
        assert f.saved[i].number == n;
      }
      assert f.saved[|e.saved|].number == v.number;
    }
    assert !IsSaved(e, v.number);
  }

  lemma HeldHasArrived(arrived: seq<Reply>, e: Events, ds: seq<nat>, number: nat, ps: seq<Reply>)
    requires IsConserved(arrived, e) && AreOf(e, ds, number, ps)
    ensures AreFor(arrived, ds, number, ps)
  {
    hide IsHeld;
  }

  lemma {:induction false} ServeSaves(arrived: seq<Reply>, e: Events, mask: set<nat>)
    requires IsConserved(arrived, e) && AreSaved(arrived, e, mask) && AreTyped(e, mask) && EventsOk(e, mask)
    requires forall d :: d in mask ==> d < 31
    ensures AreSaved(arrived, ServeMap(e, mask), mask)
  {
    if e.ready != [] {
      hide Devices, PayloadsOf, AreSaved, AreTyped, IsConserved, IsHeld, AreFor;
      var number := e.ready[|e.ready| - 1];
      assert number in e.ready;
      var ps := PayloadsOf(e.live[number], Devices(mask, MAX_DEVICE_NUMBER));
      HeldPayloads(e, mask, number, ps);
      HeldHasArrived(arrived, e, Devices(mask, MAX_DEVICE_NUMBER), number, ps);
      SaveSaves(arrived, e, ServeMap(e, mask), mask, SavedEvent(number, 0, DATA_FORMAT_VERSION, mask, ps));
    }
  }

  // ----- The result -----

  /** All devices of the mask have sent their payload for `n`. */
  ghost predicate HasArrived(arrived: seq<Reply>, mask: set<nat>, n: nat) {
    forall d :: d in mask ==> exists r :: r in arrived && r.device == d && r.number == n
  }

  ghost predicate IsAccounted(arrived: seq<Reply>, e: Events, mask: set<nat>) {
    EventsOk(e, mask) && AreTyped(e, mask) && IsConserved(arrived, e) && AreSaved(arrived, e, mask)
  }

  lemma {:induction false} PrefixOnce(replies: seq<Reply>, reply: Reply)
    requires OncePerDevice(replies + [reply])
    ensures OncePerDevice(replies) && reply !in replies
  {
    forall i, j | 0 <= i < j < |replies| ensures replies[i].device != replies[j].device || replies[i].number != replies[j].number {
      assert (replies + [reply])[i] == replies[i] && (replies + [reply])[j] == replies[j];
    }
    if reply in replies {
      OnceMore(replies, reply, reply);
    }
  }

  lemma {:induction false} RunAccounts(mask: set<nat>, ins: seq<Input>)
    requires IsMask(mask) && AreInputs(ins) && AreAdmissible(mask, ins) && OncePerDevice(Arrived(ins))
    ensures IsAccounted(Arrived(ins), RunMap(mask, ins), mask)
    decreases |ins|
  {
    hide ArriveMap, ServeMap, EventsOk, AreTyped, IsConserved, AreSaved, OncePerDevice, Admissible;
    if ins == [] {
      NothingToAccount(mask);
    } else {
      var n := |ins| - 1;
      var e, arrived := RunMap(mask, ins[..n]), Arrived(ins[..n]);
      if ins[n].Arrival? {
        var reply := ins[n].reply;
        PrefixOnce(arrived, reply);
        RunAccounts(mask, ins[..n]);
        ArriveKeepsEvents(e, mask, reply);
        TypedStep(e, mask, ins[n]);
        ArriveConserves(arrived, e, mask, reply);
        ArriveSaves(arrived, e, mask, reply);
      } else {
        assert arrived + [] == arrived;
        RunAccounts(mask, ins[..n]);
        ServeKeepsEvents(e, mask);
        TypedStep(e, mask, ins[n]);
        ServeConserves(arrived, e, mask);
        ServeSaves(arrived, e, mask);
      }
    }
  }

  lemma NothingToAccount(mask: set<nat>)
    ensures IsAccounted([], NO_EVENTS, mask)
  {
  }

  /**
   What the zipper does in a whole run, if the premises of the registry hold at every payload and no
   device sends a number twice: every event is saved once, when it is popped after all devices of the mask
   have sent their payload for it, with exactly those payloads; every payload is freed once, or still held.
   */
  lemma {:induction false} EveryEventIsSavedOnce(mask: set<nat>, ins: seq<Input>)
    requires IsMask(mask) && AreInputs(ins) && AreAdmissible(mask, ins) && OncePerDevice(Arrived(ins))
    ensures
      var s, arrived := Run(mask, ins), Arrived(ins);
      && (forall i :: 0 <= i < |s.saved| ==> IsComplete(arrived, mask, s.saved[i]))
      && (forall i, j :: 0 <= i < j < |s.saved| ==> s.saved[i].number != s.saved[j].number)
      && (forall n :: HasArrived(arrived, mask, n) <==> n in s.ready || exists i :: 0 <= i < |s.saved| && s.saved[i].number == n)
      && NoDuplicates(s.freed) && (forall r :: r in s.freed ==> r in arrived)
      && (forall r :: r in arrived && r !in s.freed ==>
            r.device in mask && s.registry[Hash(r.number)].eventNumber == r.number && r.device in s.registry[Hash(r.number)].bits)
  {
    RunRefines(mask, ins);
    RunAccounts(mask, ins);
    var s, e, arrived := Run(mask, ins), RunMap(mask, ins), Arrived(ins);
    forall n ensures HasArrived(arrived, mask, n) <==> n in e.ready || IsSaved(e, n) {
      CompleteIsReadyOrSaved(arrived, e, mask, n);
    }
    forall r | r in arrived && r !in s.freed
      ensures r.device in mask && s.registry[Hash(r.number)].eventNumber == r.number && r.device in s.registry[Hash(r.number)].bits
    {
      assert IsHeld(e, r) && Holds(s.registry[Hash(r.number)], r.number, e.live[r.number]);
    }
  }

  lemma {:induction false} ReadyHasArrived(arrived: seq<Reply>, e: Events, mask: set<nat>, n: nat)
    requires IsAccounted(arrived, e, mask) && n in e.ready
    ensures HasArrived(arrived, mask, n)
  {
    hide AreSaved, NoDuplicates;
    forall d | d in mask ensures exists r :: r in arrived && r.device == d && r.number == n {
      assert d in e.live[n].Keys;
      assert IsHeld(e, e.live[n][d]);
    }
  }

  lemma {:induction false} ArrivedIsReady(arrived: seq<Reply>, e: Events, mask: set<nat>, n: nat)
    requires IsMask(mask) && IsAccounted(arrived, e, mask) && HasArrived(arrived, mask, n) && !IsSaved(e, n)
    ensures n in e.ready
  {
    hide NoDuplicates, IsConserved, IsSaved, IsComplete;
    forall d | d in mask ensures n in e.live && d in e.live[n].Keys {
      var r :| r in arrived && r.device == d && r.number == n;
      assert IsHeld(e, r);
    }
    assert e.live[n].Keys == mask;
  }

  lemma {:induction false} CompleteIsReadyOrSaved(arrived: seq<Reply>, e: Events, mask: set<nat>, n: nat)
    requires IsMask(mask) && IsAccounted(arrived, e, mask)
    ensures HasArrived(arrived, mask, n) <==> n in e.ready || IsSaved(e, n)
  {
    if IsSaved(e, n) {
      hide AreSaved, IsSaved;
      forall d | d in mask ensures exists r :: r in arrived && r.device == d && r.number == n {
        SavedHasArrived(arrived, e, mask, n, d);
      }
    } else if n in e.ready {
      ReadyHasArrived(arrived, e, mask, n);
    } else if HasArrived(arrived, mask, n) {
      ArrivedIsReady(arrived, e, mask, n);
    }
  }

  // ----- What happens without the premises -----

  /** A complete event is on top of the stack, and its slot still is its own. */
  ghost predicate IsWaiting(s: State, mask: set<nat>, number: nat) {
    && IsMask(mask) && Ok(s, mask) && s.ready != [] && s.ready[|s.ready| - 1] == number
    && s.registry[Hash(number)].bits == mask && s.registry[Hash(number)].eventNumber == number
  }

  /** Every device of the mask has a payload in the slot of a complete event. */
  lemma SlotIsFull(s: State, mask: set<nat>, h: nat)
    requires IsMask(mask) && Ok(s, mask) && h < HASH_TABLE_SIZE && s.registry[h].bits == mask
    ensures |s.registry[h].data| == MAX_DEVICE_NUMBER && forall d :: d in mask ==> s.registry[h].data[d].Some?
  {
    assert RecordOk(s.registry[h], mask, h);
  }

  /** If the slot of a waiting event is taken by another event, it is saved as incomplete, with the payload of the other one. */
  lemma CollisionSavesAnotherPayload(s: State, mask: set<nat>, number: nat, reply: Reply)
    requires IsWaiting(s, mask, number) && reply.device in mask && mask != {reply.device}
    requires reply.number != number && Hash(reply.number) == Hash(number)
    ensures reply.device < 31
    ensures
      var t := Serve(Arrive(s, mask, reply), mask);
      && |t.saved| == |s.saved| + 1 && t.saved[|s.saved|].number == number
      && reply in t.saved[|s.saved|].payloads && t.saved[|s.saved|].status == 1
  {
    hide Payloads, Devices, Hash;
    var h := Hash(number);
    SlotIsFull(s, mask, h);
    var data := s.registry[h].data[reply.device := Some(reply)];
    var ds := Devices(mask, MAX_DEVICE_NUMBER);
    assert reply.device in ds;
    var i :| 0 <= i < |ds| && ds[i] == reply.device;
    assert Payloads(data, ds).Some? && Payloads(data, ds).value[i] == reply;
  }

  /** If a device repeats its payload for a waiting event, the event is saved and its payloads are freed twice. */
  lemma RepeatIsFreedTwice(s: State, mask: set<nat>, reply: Reply)
    requires IsWaiting(s, mask, reply.number) && reply.device in mask && |s.ready| < QUEUE_LENGTH
    ensures reply.device < 31
    ensures
      var t := Serve(Serve(Arrive(s, mask, reply), mask), mask);
      exists ps :: reply in ps && t.freed == s.freed + ps + ps
  {
    hide Payloads, Devices, Hash;
    var h := Hash(reply.number);
    SlotIsFull(s, mask, h);
    var data := s.registry[h].data[reply.device := Some(reply)];
    var ds := Devices(mask, MAX_DEVICE_NUMBER);
    assert reply.device in ds;
    var i :| 0 <= i < |ds| && ds[i] == reply.device;
    assert Payloads(data, ds).Some? && Payloads(data, ds).value[i] == reply;
    var a := Arrive(s, mask, reply);
    assert mask + {reply.device} == mask;
    assert a.registry[h] == EventRecord(mask, reply.number, data) && a.ready == s.ready + [reply.number] && a.freed == s.freed;
    FreedTwice(a, mask, Payloads(data, ds).value);
    assert a.ready[..|a.ready| - 1] == s.ready;
  }

  lemma FreedTwice(a: State, mask: set<nat>, ps: seq<Reply>)
    requires IsMask(mask) && Ok(a, mask) && |a.ready| >= 2 && a.ready[|a.ready| - 1] == a.ready[|a.ready| - 2]
    requires |a.registry[Hash(a.ready[|a.ready| - 1])].data| == MAX_DEVICE_NUMBER
    requires Payloads(a.registry[Hash(a.ready[|a.ready| - 1])].data, Devices(mask, MAX_DEVICE_NUMBER)) == Some(ps)
    ensures Serve(Serve(a, mask), mask).freed == a.freed + ps + ps
  {
    hide Payloads, Devices, Hash, Serve;
    assert |a.registry| == HASH_TABLE_SIZE;
    hide Ok;
    Zipper.ServeIs(a, mask);
    Zipper.ServeIs(Serve(a, mask), mask);
  }

  /** A complete event whose slot lacks the payload of a device of the mask ends the program: it is popped, and nothing else changes. */
  lemma {:induction false} MissingPayloadEnds(s: State, mask: set<nat>, d: nat)
    requires IsMask(mask) && Ok(s, mask) && s.ready != [] && d in mask
    requires |s.registry[Hash(s.ready[|s.ready| - 1])].data| == MAX_DEVICE_NUMBER
    requires s.registry[Hash(s.ready[|s.ready| - 1])].data[d].None?
    ensures Serve(s, mask) == s.(ready := s.ready[..|s.ready| - 1], loop := false)
  {
    Zipper.ServeIs(s, mask);
    var data := s.registry[Hash(s.ready[|s.ready| - 1])].data;
    hide Serve, Hash, Ok;
    if Payloads(data, Devices(mask, MAX_DEVICE_NUMBER)).Some? {
      Zipper.AllThere(data, mask);
    }
  }

  /** If the stack is full, an event that becomes complete stays in its slot, and nobody is told. */
  lemma FullStackDropsEvent(s: State, mask: set<nat>, reply: Reply)
    requires IsMask(mask) && Ok(s, mask) && reply.device in mask && |s.ready| == QUEUE_LENGTH
    ensures reply.device < 31 && |s.registry[Hash(reply.number)].data| == MAX_DEVICE_NUMBER
    ensures Arrive(s, mask, reply).ready == s.ready
    ensures Register(s.registry[Hash(reply.number)], reply).bits == mask ==>
      var r := Arrive(s, mask, reply).registry[Hash(reply.number)]; r.bits == mask && r.eventNumber == reply.number
  {
    Zipper.TableIsFull(s, mask, Hash(reply.number));
    Zipper.ArriveIs(s, mask, reply);
    hide Hash, Arrive;
  }

  // ----- What is in the file -----

  /** Every payload lies behind those in front of it. */
  lemma {:induction false} PayloadInBytes(ps: seq<Reply>, k: nat)
    requires k < |ps|
    ensures
      var at := |Bytes(ps[..k])|;
      Bytes(ps[..k]) <= Bytes(ps) && at + |ps[k].bytes| <= |Bytes(ps)| && Bytes(ps)[at..at + |ps[k].bytes|] == ps[k].bytes
    decreases |ps|
  {
    var n := |ps| - 1;
    if k == n {
      assert Bytes(ps) == Bytes(ps[..n]) + ps[n].bytes;
    } else {
      PayloadInBytes(ps[..n], k);
      assert ps[..n][..k] == ps[..k];
      PrefixOfSum(Bytes(ps[..n]), ps[n].bytes, Bytes(ps[..k]), ps[k].bytes);
    }
  }

  lemma PrefixOfSum(a: seq<bv8>, b: seq<bv8>, front: seq<bv8>, part: seq<bv8>)
    requires front <= a && |front| + |part| <= |a| && a[|front|..|front| + |part|] == part
    ensures front <= a + b && (a + b)[|front|..|front| + |part|] == part
  {
  }

  /** What is written later goes behind it. */
  lemma {:induction false} ImagesGrow(saved: seq<SavedEvent>, i: nat) returns (rest: seq<bv8>)
    requires i <= |saved|
    ensures Images(saved) == Images(saved[..i]) + rest
    decreases |saved|
  {
    hide SavedEvent.Image;
    var n := |saved| - 1;
    if i == |saved| {
      assert saved[..i] == saved;
      rest := [];
    } else {
      rest := ImagesGrow(saved[..n], i);
      assert saved[..n][..i] == saved[..i];
      rest := rest + saved[n].Image();
    }
  }

  lemma {:induction false} VersionsAre(mask: set<nat>, ins: seq<Input>)
    requires IsMask(mask) && AreInputs(ins)
    ensures forall e :: e in Run(mask, ins).saved ==> e.version == 1
    decreases |ins|
  {
    hide Ok, IsMask, Serve, Arrive, Hash;
    if ins == [] {
      assert Run(mask, ins).saved == [] by { StartIsOk(mask); }
    } else {
      var s, last := Run(mask, ins[..|ins| - 1]), ins[|ins| - 1];
      VersionsAre(mask, ins[..|ins| - 1]);
      if last.Arrival? {
        ArriveSavesNothing(s, mask, last.reply);
      } else {
        ServeVersion(s, mask);
      }
    }
  }

  lemma ArriveSavesNothing(s: State, mask: set<nat>, reply: Reply)
    requires IsMask(mask) && Ok(s, mask) && reply.device < 31
    ensures Arrive(s, mask, reply).saved == s.saved
  {
    hide Flag, Register, Hash;
  }

  lemma ServeVersion(s: State, mask: set<nat>)
    requires IsMask(mask) && Ok(s, mask)
    ensures Serve(s, mask).saved == s.saved || exists e: SavedEvent :: e.version == 1 && Serve(s, mask).saved == s.saved + [e]
  {
    if s.ready != [] {
      Zipper.ServeIs(s, mask);
      hide Ok, Serve, Payloads, Devices, Hash, IsMask;
    }
  }

  lemma ImageHeader(e: SavedEvent)
    requires e.version == 1
    ensures e.Image()[16..] == Bytes(e.payloads) && |e.Image()| == 16 + |Bytes(e.payloads)|
    ensures e.Image() == e.Image()[..16] + Bytes(e.payloads) && IsHeaderAt(e.Image()[..16], 0, e.number, e.status == 0, e.deviceMask)
  {
    hide HeaderBytes, IsHeaderAt, Bytes;
    HeaderReadsBack(e.number, e.status == 0, e.deviceMask);
    assert e.Image()[..16] == HeaderBytes(e.number, if e.status == 0 then 0 else 1, 1, e.deviceMask);
  }

  lemma InFile(before: seq<bv8>, e: SavedEvent, rest: seq<bv8>)
    requires e.version == 1
    ensures
      var file, at, size := before + e.Image() + rest, |before|, |Bytes(e.payloads)|;
      && at + 16 + size <= |file|
      && IsHeaderAt(file, at, e.number, e.status == 0, e.deviceMask) && file[at + 16..at + 16 + size] == Bytes(e.payloads)
  {
    hide IsHeaderAt, Bytes, SavedEvent.Image;
    ImageHeader(e);
    var header, ps := e.Image()[..16], Bytes(e.payloads);
    HeaderInFile(before, header, ps + rest, e.number, e.status == 0, e.deviceMask);
    assert before + e.Image() + rest == before + header + (ps + rest) by { Regroup(before, header, ps, rest); }
    assert (before + header + (ps + rest))[|before| + 16..][..|ps|] == ps;
  }

  lemma Regroup(a: seq<bv8>, b: seq<bv8>, c: seq<bv8>, d: seq<bv8>)
    ensures a + (b + c) + d == a + b + (c + d)
  {
  }

  /**
   Every event that a run saves is in the file, behind those saved before it: its number, zero for a complete
   event and one for another, one, a bit for each of its devices, and sixteen bytes on its payloads.
   */
  lemma {:induction false} EventsInFile(mask: set<nat>, ins: seq<Input>, i: nat)
    requires IsMask(mask) && AreInputs(ins) && i < |Run(mask, ins).saved|
    ensures
      var saved := Run(mask, ins).saved;
      var file, e, at, size := Images(saved), saved[i], |Images(saved[..i])|, |Bytes(saved[i].payloads)|;
      && |Images(saved[..i + 1])| == at + 16 + size <= |file|
      && IsHeaderAt(file, at, e.number, e.status == 0, e.deviceMask) && file[at + 16..at + 16 + size] == Bytes(e.payloads)
  {
    hide Ok, Run, IsMask, AreInputs, Images, Bytes, SavedEvent.Image, IsHeaderAt;
    VersionsAre(mask, ins);
    var saved := Run(mask, ins).saved;
    var e := saved[i];
    var rest := ImagesGrow(saved, i + 1);
    assert saved[..i + 1] == saved[..i] + [e];
    Zipper.MoreImages(saved[..i], e);
    ImageHeader(e);
    InFile(Images(saved[..i]), e, rest);
  }

  // ----- Exactly when a payload can be taken -----

  /** A payload that is overwritten is neither held nor freed. */
  lemma {:induction false} RepeatLosesPayload(arrived: seq<Reply>, e: Events, mask: set<nat>, reply: Reply)
    requires IsConserved(arrived, e) && AreTyped(e, mask) && reply !in arrived
    requires reply.device in mask && reply.device in e.Of(reply.number)
    ensures !IsConserved(arrived + [reply], ArriveMap(e, mask, reply))
  {
    var was := e.live[reply.number][reply.device];
    assert IsHeld(e, was);
    assert was in arrived && was in arrived + [reply];
    assert !IsHeld(ArriveMap(e, mask, reply), was);
  }

  /** One slot cannot hold two live events. */
  lemma {:induction false} CollisionUncouples(s: State, e: Events, mask: set<nat>, reply: Reply, m: nat)
    requires m in e.live && m != reply.number && Hash(m) == Hash(reply.number) && reply.device in mask
    ensures !Coupled(s, ArriveMap(e, mask, reply), mask)
  {
    hide Hash;
    var f := ArriveMap(e, mask, reply);
    if Coupled(s, f, mask) {
      SlotsApart(s, f, mask, m, reply.number);
    }
  }

  /** A full stack cannot take another event. */
  lemma {:induction false} FullStackUncouples(s: State, e: Events, mask: set<nat>, reply: Reply)
    requires |e.ready| >= QUEUE_LENGTH && reply.device in mask && e.Of(reply.number)[reply.device := reply].Keys == mask
    ensures !Coupled(s, ArriveMap(e, mask, reply), mask)
  {
    hide AreInSlots, EventsOk;
  }

  /**
   A payload leaves the registry in step with the map, and every payload held or freed, if and only if its
   device has not sent that number for a live event, no other live event has its slot, and the stack has room
   if it completes its event.
   */
  lemma {:induction false} ArriveIsRight(arrived: seq<Reply>, s: State, e: Events, mask: set<nat>, reply: Reply)
    requires IsMask(mask) && Coupled(s, e, mask) && IsConserved(arrived, e) && AreTyped(e, mask)
    requires reply.device < 31 && reply !in arrived
    ensures Coupled(Arrive(s, mask, reply), ArriveMap(e, mask, reply), mask) && IsConserved(arrived + [reply], ArriveMap(e, mask, reply))
       <==> Admissible(e, mask, reply)
  {
    if Admissible(e, mask, reply) {
      ArriveRefines(s, e, mask, reply);
      ArriveConserves(arrived, e, mask, reply);
    } else {
      hide Coupled, IsConserved, Arrive, ArriveMap, Hash, AreTyped;
      if reply.device in e.Of(reply.number) {
        RepeatLosesPayload(arrived, e, mask, reply);
      } else if m :| m in e.live && m != reply.number && Hash(m) == Hash(reply.number) {
        CollisionUncouples(Arrive(s, mask, reply), e, mask, reply, m);
      } else {
        FullStackUncouples(Arrive(s, mask, reply), e, mask, reply);
      }
    }
  }

  /** At every moment of the run the registry was in step with the map, and every payload held or freed once. */
  ghost predicate IsRightThroughout(mask: set<nat>, ins: seq<Input>)
    requires IsMask(mask) && AreInputs(ins)
    decreases |ins|
  {
    && Coupled(Run(mask, ins), RunMap(mask, ins), mask) && IsConserved(Arrived(ins), RunMap(mask, ins))
    && (ins != [] ==> IsRightThroughout(mask, ins[..|ins| - 1]))
  }

  lemma {:induction false} PrefixDistinct(replies: seq<Reply>, reply: Reply)
    requires NoDuplicates(replies + [reply])
    ensures NoDuplicates(replies) && reply !in replies
  {
    forall i, j | 0 <= i < j < |replies| ensures replies[i] != replies[j] {
      assert (replies + [reply])[i] == replies[i] && (replies + [reply])[j] == replies[j];
    }
    forall i | 0 <= i < |replies| ensures replies[i] != reply {
      assert (replies + [reply])[i] == replies[i] && (replies + [reply])[|replies|] == reply;
    }
  }

  lemma {:induction false} StartIsRight(mask: set<nat>)
    requires IsMask(mask)
    ensures Coupled(Start(), NO_EVENTS, mask) && IsConserved([], NO_EVENTS) && AreTyped(NO_EVENTS, mask)
  {
    StartIsOk(mask);
  }

  /** Over whole runs of distinct payloads: the registry is right throughout if and only if every payload could be taken. */
  lemma {:induction false} RunIsRight(mask: set<nat>, ins: seq<Input>)
    requires IsMask(mask) && AreInputs(ins) && NoDuplicates(Arrived(ins))
    ensures IsRightThroughout(mask, ins) <==> AreAdmissible(mask, ins)
    ensures AreAdmissible(mask, ins) ==> AreTyped(RunMap(mask, ins), mask)
    decreases |ins|
  {
    hide Coupled, IsConserved, Admissible, Arrive, Serve, ArriveMap, ServeMap, EventsOk, IsMask, AreTyped, NoDuplicates;
    if ins == [] {
      StartIsRight(mask);
    } else {
      var n := |ins| - 1;
      var s, e, arrived := Run(mask, ins[..n]), RunMap(mask, ins[..n]), Arrived(ins[..n]);
      if ins[n].Arrival? {
        PrefixDistinct(arrived, ins[n].reply);
        RunIsRight(mask, ins[..n]);
        if AreAdmissible(mask, ins[..n]) {
          CoupledIsOk(s, e, mask);
          ArriveIsRight(arrived, s, e, mask, ins[n].reply);
          TypedStep(e, mask, ins[n]);
        }
      } else {
        assert arrived + [] == arrived;
        RunIsRight(mask, ins[..n]);
        if AreAdmissible(mask, ins[..n]) {
          CoupledIsOk(s, e, mask);
          ServeRefines(s, e, mask);
          MaskIsSmall(mask);
          ServeConserves(arrived, e, mask);
          TypedStep(e, mask, ins[n]);
        }
      }
    }
  }

  lemma CoupledIsOk(s: State, e: Events, mask: set<nat>)
    requires Coupled(s, e, mask)
    ensures EventsOk(e, mask)
  {
  }

  lemma MaskIsSmall(mask: set<nat>)
    requires IsMask(mask)
    ensures forall d :: d in mask ==> d < 31
  {
  }

  // ----- Runs in which a payload cannot be taken -----

  /** The payload of device `d` for `number`. */
  function PayloadOf(d: nat, number: nat): Reply { Reply(number * MAX_DEVICE_NUMBER + d, d, number, []) }

  /** The payloads for `number` of the devices of the mask below `n`. */
  function Burst(mask: set<nat>, n: nat, number: nat): seq<Input> {
    if n == 0 then [] else Burst(mask, n - 1, number) + if n - 1 in mask then [Arrival(PayloadOf(n - 1, number))] else []
  }

  function BurstPayloads(mask: set<nat>, n: nat, number: nat): (has: map<nat, Reply>)
    ensures forall d :: d in has <==> d in mask && d < n
  {
    if n == 0 then map[]
    else
      var has := BurstPayloads(mask, n - 1, number);
      if n - 1 in mask then has[n - 1 := PayloadOf(n - 1, number)] else has
  }

  /** The map after such a burst. */
  ghost function AfterBurst(e: Events, mask: set<nat>, n: nat, number: nat): Events {
    var has := BurstPayloads(mask, n, number);
    e.(live := if has == map[] then e.live else e.live[number := has],
       ready := if has.Keys == mask then e.ready + [number] else e.ready)
  }

  lemma {:induction false} BurstStep(e: Events, mask: set<nat>, n: nat, number: nat)
    requires number !in e.live && n in mask
    ensures AfterBurst(e, mask, n + 1, number) == ArriveMap(AfterBurst(e, mask, n, number), mask, PayloadOf(n, number))
  {
    var has, more := BurstPayloads(mask, n, number), BurstPayloads(mask, n + 1, number);
    assert n !in has && n in more;
    var f := AfterBurst(e, mask, n, number);
    assert f.Of(number) == has;
    if has != map[] {
      assert e.live[number := has][number := more] == e.live[number := more];
    }
  }

  /** Wherever it comes, a burst for a new number does that to the map. */
  lemma {:induction false} BurstRuns(mask: set<nat>, before: seq<Input>, n: nat, number: nat)
    requires IsMask(mask) && AreInputs(before) && number !in RunMap(mask, before).live
    ensures AreInputs(before + Burst(mask, n, number))
    ensures RunMap(mask, before + Burst(mask, n, number)) == AfterBurst(RunMap(mask, before), mask, n, number)
    decreases n
  {
    hide ArriveMap, ServeMap, EventsOk, AfterBurst, RunMap, Events.Of;
    if n == 0 {
      NoBurst(RunMap(mask, before), mask, number);
      assert before + [] == before;
    } else {
      BurstRuns(mask, before, n - 1, number);
      var ins := before + Burst(mask, n - 1, number);
      if n - 1 in mask {
        var last := Arrival(PayloadOf(n - 1, number));
        BurstStep(RunMap(mask, before), mask, n - 1, number);
        assert before + Burst(mask, n, number) == ins + [last];
        RunNext(mask, ins, last.reply);
      } else {
        BurstSame(RunMap(mask, before), mask, n - 1, number);
        assert Burst(mask, n, number) == Burst(mask, n - 1, number);
      }
    }
  }

  lemma {:induction false} RunNext(mask: set<nat>, ins: seq<Input>, reply: Reply)
    ensures RunMap(mask, ins + [Arrival(reply)]) == ArriveMap(RunMap(mask, ins), mask, reply)
  {
    hide ArriveMap, ServeMap, EventsOk;
    assert (ins + [Arrival(reply)])[..|ins|] == ins;
  }

  lemma {:induction false} NoBurst(e: Events, mask: set<nat>, number: nat)
    requires mask != {}
    ensures AfterBurst(e, mask, 0, number) == e && Burst(mask, 0, number) == []
  {
  }

  lemma {:induction false} BurstSame(e: Events, mask: set<nat>, n: nat, number: nat)
    requires n !in mask
    ensures AfterBurst(e, mask, n + 1, number) == AfterBurst(e, mask, n, number)
  {
  }

  lemma {:induction false} AdmissibleNext(mask: set<nat>, ins: seq<Input>, reply: Reply)
    requires AreAdmissible(mask, ins) && Admissible(RunMap(mask, ins), mask, reply)
    ensures AreAdmissible(mask, ins + [Arrival(reply)])
  {
    hide Admissible, RunMap;
    assert (ins + [Arrival(reply)])[..|ins|] == ins;
  }

  /** If its slot is free and the stack has room, all of it can be taken. */
  lemma {:induction false} BurstIsAdmissible(mask: set<nat>, before: seq<Input>, n: nat, number: nat)
    requires IsMask(mask) && AreInputs(before) && AreAdmissible(mask, before) && |RunMap(mask, before).ready| < QUEUE_LENGTH
    requires number !in RunMap(mask, before).live && forall m :: m in RunMap(mask, before).live ==> Hash(m) != Hash(number)
    ensures AreAdmissible(mask, before + Burst(mask, n, number))
    decreases n
  {
    hide ArriveMap, ServeMap, EventsOk, Admissible, Hash, Run, RunMap, AreAdmissible, AfterBurst, AreInputs;
    if n == 0 {
      assert Burst(mask, 0, number) == [];
      assert before + [] == before;
    } else {
      BurstIsAdmissible(mask, before, n - 1, number);
      var ins := before + Burst(mask, n - 1, number);
      if n - 1 in mask {
        BurstRuns(mask, before, n - 1, number);
        NextIsAdmissible(RunMap(mask, before), mask, n - 1, number);
        AdmissibleNext(mask, ins, PayloadOf(n - 1, number));
        assert before + Burst(mask, n, number) == ins + [Arrival(PayloadOf(n - 1, number))];
      } else {
        assert Burst(mask, n, number) == Burst(mask, n - 1, number);
      }
    }
  }

  lemma {:induction false} NextIsAdmissible(e: Events, mask: set<nat>, n: nat, number: nat)
    requires n in mask && number !in e.live && |e.ready| < QUEUE_LENGTH && forall m :: m in e.live ==> Hash(m) != Hash(number)
    ensures Admissible(AfterBurst(e, mask, n, number), mask, PayloadOf(n, number))
  {
    var has := BurstPayloads(mask, n, number);
    assert n !in has;
    assert AfterBurst(e, mask, n, number).Of(number) == has;
  }

  /** One complete event after the other, none of them served. */
  function Fill(mask: set<nat>, k: nat): seq<Input> {
    if k == 0 then [] else Fill(mask, k - 1) + Burst(mask, 31, k - 1)
  }

  ghost predicate Filled(e: Events, mask: set<nat>, k: nat) {
    && |e.ready| == k && (k > 0 ==> e.ready[k - 1] == k - 1)
    && (forall m: nat :: m in e.live <==> m < k) && forall m :: m in e.live ==> e.live[m].Keys == mask
  }

  lemma {:induction false} FillRuns(mask: set<nat>, k: nat)
    requires IsMask(mask) && k <= QUEUE_LENGTH
    ensures AreInputs(Fill(mask, k)) && AreAdmissible(mask, Fill(mask, k)) && Filled(RunMap(mask, Fill(mask, k)), mask, k)
    decreases k
  {
    hide ArriveMap, ServeMap, EventsOk, Admissible, Burst, IsMask, RunMap, AreAdmissible, AreInputs, AfterBurst;
    if k == 0 {
      NothingFilled(mask);
    } else {
      FillRuns(mask, k - 1);
      var ins := Fill(mask, k - 1);
      BurstRuns(mask, ins, 31, k - 1);
      BurstIsAdmissible(mask, ins, 31, k - 1);
      MaskIsSmall(mask);
      FilledNext(RunMap(mask, ins), mask, k - 1);
    }
  }

  lemma {:induction false} NothingFilled(mask: set<nat>)
    ensures AreInputs([]) && AreAdmissible(mask, []) && Filled(RunMap(mask, []), mask, 0)
  {
  }

  lemma {:induction false} FilledNext(e: Events, mask: set<nat>, k: nat)
    requires IsMask(mask) && Filled(e, mask, k)
    ensures Filled(AfterBurst(e, mask, 31, k), mask, k + 1)
  {
    var has := BurstPayloads(mask, 31, k);
    assert has.Keys == mask;
  }

  /**
   From the start, and without a bad payload on the way, the registry can come to hold any number of
   waiting events up to the size of the stack; and then each kind of bad payload can follow: a repeat
   for the waiting event, one of another event with the same slot, or the last one of one event too many.
   */
  lemma {:induction false} BadPayloadsCanCome(mask: set<nat>, k: nat, d: nat)
    requires IsMask(mask) && 0 < k <= 100 && d in mask
    ensures
      var ins := Fill(mask, k);
      var e := RunMap(mask, ins);
      && AreInputs(ins) && AreAdmissible(mask, ins) && IsWaiting(Run(mask, ins), mask, k - 1) && |Run(mask, ins).ready| == k
      && !Admissible(e, mask, Reply(0, d, k - 1, [1]))
      && !Admissible(e, mask, Reply(0, d, k - 1 + 1000, [2]))
      && (k == 100 ==> !AreAdmissible(mask, ins + Burst(mask, 31, k)))
  {
    hide ArriveMap, ServeMap, Burst, IsMask, Arrive, Serve, AreAdmissible, Run, RunMap, Filled, Admissible, IsWaiting;
    var ins := Fill(mask, k);
    FillRuns(mask, k);
    var e := RunMap(mask, ins);
    RunRefines(mask, ins);
    FilledIsWaiting(Run(mask, ins), e, mask, k);
    BadWhenFilled(e, mask, k, d);
    if k == 100 {
      OneTooMany(mask, ins);
    }
  }

  lemma {:induction false} BadWhenFilled(e: Events, mask: set<nat>, k: nat, d: nat)
    requires Filled(e, mask, k) && k > 0 && d in mask
    ensures !Admissible(e, mask, Reply(0, d, k - 1, [1])) && !Admissible(e, mask, Reply(0, d, k - 1 + 1000, [2]))
  {
    assert k - 1 in e.live && e.live[k - 1].Keys == mask && k - 1 + 1000 !in e.live;
    assert (k - 1) % 1000 == (k - 1 + 1000) % 1000;
  }

  lemma {:induction false} OneTooMany(mask: set<nat>, ins: seq<Input>)
    requires IsMask(mask) && AreInputs(ins) && Filled(RunMap(mask, ins), mask, 100)
    ensures !AreAdmissible(mask, ins + Burst(mask, 31, 100))
  {
    hide ArriveMap, ServeMap, Burst, IsMask, Arrive, Serve, AreAdmissible, Run, RunMap;
    MaskIsSmall(mask);
    if AreAdmissible(mask, ins + Burst(mask, 31, 100)) {
      BurstRuns(mask, ins, 31, 100);
      FilledNext(RunMap(mask, ins), mask, 100);
      RunRefines(mask, ins + Burst(mask, 31, 100));
      assert false;
    }
  }

  lemma {:induction false} FilledIsWaiting(s: State, e: Events, mask: set<nat>, k: nat)
    requires IsMask(mask) && Coupled(s, e, mask) && Filled(e, mask, k) && k > 0
    ensures IsWaiting(s, mask, k - 1) && |s.ready| == k
  {
    hide Hash;
    assert k - 1 in e.live;
    assert Holds(s.registry[Hash(k - 1)], k - 1, e.live[k - 1]);
  }
}
