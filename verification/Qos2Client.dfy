/** One endpoint of the QoS 2 exchange: the send and receive windows of
    src/MqttClient.hpp, the packet handlers that advance them, and the completion
    callbacks that run when a write reaches the wire. */
module Qos2Client {
  import opened Basics

  /** The packet types the windows react to; also the values of Package::_status. */
  datatype Kind = PUBLISH | PUBACK | PUBREC | PUBREL | PUBCOMP

  datatype Message = Message(qos: nat, dup: bool, retain: bool, topic: string, payload: string)

  /** A publication: the packet identifier it travels under and its content, or what is
      kept of that. */
  datatype ItemOf<T> = Item(id: Int16, msg: T)

  type Item = ItemOf<Message>

  datatype Packet = Publish(item: Item) | PubAck(id: Int16) | PubRec(id: Int16) | PubRel(id: Int16) | PubComp(id: Int16)

  function KindOf(p: Packet): Kind {
    match p
    case Publish(_) => PUBLISH
    case PubAck(_) => PUBACK
    case PubRec(_) => PUBREC
    case PubRel(_) => PUBREL
    case PubComp(_) => PUBCOMP
  }

  function IdOf(p: Packet): Int16 {
    if p.Publish? then p.item.id else p.id
  }

  /** What a window holds under an identifier; T is what is kept of a message. Here that is
      the whole message, in module SlicedPackages what the source keeps of it. */
  datatype PackageOf<T> = Package(msg: T, status: Kind)

  type Package = PackageOf<Message>

  function Whole(m: Message): Message { m }

  /** The window that the PUBREL callback and the PUBCOMP handler address. The source
      names the receive window (lines 253 and 278 of src/MqttClient.hpp), although the
      entry they are about lives in the send window. */
  datatype Window = ReceiveWindow | SendWindow

  /** The state of an endpoint: both windows, and the writes that wait for their
      completion, oldest first. */
  datatype SideOf<T> = Side(sq: map<Int16, PackageOf<T>>, rq: map<Int16, PackageOf<T>>, pending: seq<Packet>)

  type Side = SideOf<Message>

  const EMPTY_SIDE: Side := Side(map[], map[], [])

  // ----- what each handler does to the state

  function OnPublishSpec<T>(keep: Message -> T, s: SideOf<T>, it: Item): SideOf<T> {
    if it.msg.qos == 1 then
      s.(pending := s.pending + [PubAck(it.id)])
    else if it.msg.qos == 2 then
      s.(rq := if it.id in s.rq then s.rq else s.rq[it.id := Package(keep(it.msg), PUBLISH)],
         pending := s.pending + [PubRec(it.id)])
    else
      s
  }

  function OnPubAckSpec<T>(s: SideOf<T>, id: Int16): SideOf<T> {
    s.(sq := s.sq - {id})
  }

  function OnPubRecSpec<T>(s: SideOf<T>, id: Int16): SideOf<T> {
    s.(pending := s.pending + [PubRel(id)])
  }

  function OnPubRelSpec<T>(s: SideOf<T>, id: Int16): SideOf<T> {
    s.(pending := s.pending + [PubComp(id)])
  }

  function OnPubCompSpec<T>(w: Window, s: SideOf<T>, id: Int16): SideOf<T> {
    if w == SendWindow then s.(sq := s.sq - {id}) else s.(rq := s.rq - {id})
  }

  function DeliverSpec<T>(keep: Message -> T, w: Window, s: SideOf<T>, p: Packet): SideOf<T> {
    match p
    case Publish(it) => OnPublishSpec(keep, s, it)
    case PubAck(id) => OnPubAckSpec(s, id)
    case PubRec(id) => OnPubRecSpec(s, id)
    case PubRel(id) => OnPubRelSpec(s, id)
    case PubComp(id) => OnPubCompSpec(w, s, id)
  }

  /** The identifier of a new publication enters the send window and its PUBLISH waits
      to be written. Nothing in src/MqttClient.hpp inserts into that window; this is the
      step its comments leave to the sender's run loop. */
  function StartSpec<T>(keep: Message -> T, s: SideOf<T>, it: Item): SideOf<T> {
    s.(sq := s.sq[it.id := Package(keep(it.msg), PUBLISH)], pending := s.pending + [Publish(it)])
  }

  function SetStatus<T>(q: map<Int16, PackageOf<T>>, id: Int16, status: Kind): Option<map<Int16, PackageOf<T>>> {
    if id in q then Some(q[id := q[id].(status := status)]) else None
  }

  /** The callback of a finished write; ok says whether the write succeeded. None is the
      std::out_of_range that `at` throws for a missing identifier. */
  function CallbackSpec<T>(w: Window, s: SideOf<T>, p: Packet, ok: bool): Option<SideOf<T>> {
    match p
    case PubRec(id) =>
      var rq :- SetStatus(s.rq, id, PUBREC);
      Some(s.(rq := rq))
    case PubRel(id) =>
      if !ok then Some(s)
      else if w == SendWindow then
        var sq :- SetStatus(s.sq, id, PUBREL);
        Some(s.(sq := sq))
      else
        var rq :- SetStatus(s.rq, id, PUBREL);
        Some(s.(rq := rq))
    case PubComp(id) =>
      if !ok then Some(s)
      else
        var rq :- SetStatus(s.rq, id, PUBCOMP);
        Some(s.(rq := rq - {id}))
    case _ => Some(s)
  }

  /** Completion of the oldest pending write. */
  function CompleteSpec<T>(w: Window, s: SideOf<T>, ok: bool): Option<SideOf<T>>
    requires s.pending != []
  {
    CallbackSpec(w, s.(pending := s.pending[1..]), s.pending[0], ok)
  }

  /** The endpoint itself. Writes are queued; Complete stands for the socket finishing
      the oldest of them. */
  class MqttClient<T> {
    var squeue: map<Int16, PackageOf<T>>
    var rqueue: map<Int16, PackageOf<T>>
    var pending: seq<Packet>
    /** What the constructors of Package keep of a message. */
    const keep: Message -> T
    const window: Window

    ghost function State(): SideOf<T>
      reads this
    {
      Side(squeue, rqueue, pending)
    }

    constructor (keep: Message -> T, window: Window)
      ensures State() == Side(map[], map[], []) && this.keep == keep && this.window == window
    {
      squeue, rqueue, pending := map[], map[], [];
      this.keep, this.window := keep, window;
    }

    method Write(p: Packet)
      modifies this`pending
      ensures pending == old(pending) + [p]
    {
      pending := pending + [p];
    }

    /** std::map::insert: an identifier already in the window keeps its package. */
    method InsertReceived(it: Item)
      modifies this`rqueue
      ensures rqueue == if it.id in old(rqueue) then old(rqueue)
                        else old(rqueue)[it.id := Package(keep(it.msg), PUBLISH)]
    {
      if it.id !in rqueue {
        rqueue := rqueue[it.id := Package(keep(it.msg), PUBLISH)];
      }
    }

    method OnPublish(it: Item)
      modifies this
      ensures State() == OnPublishSpec(keep, old(State()), it)
    {
      if it.msg.qos == 1 {
        Write(PubAck(it.id));
      } else if it.msg.qos == 2 {
        if it.msg.dup {
          InsertReceived(it);
          Write(PubRec(it.id));
        } else {
          InsertReceived(it);
          Write(PubRec(it.id));
        }
      }
    }

    method OnPubAck(id: Int16)
      modifies this
      ensures State() == OnPubAckSpec(old(State()), id)
    {
      squeue := squeue - {id};
    }

    method OnPubRec(id: Int16)
      modifies this
      ensures State() == OnPubRecSpec(old(State()), id)
    {
      Write(PubRel(id));
    }

    method OnPubRel(id: Int16)
      modifies this
      ensures State() == OnPubRelSpec(old(State()), id)
    {
      Write(PubComp(id));
    }

    method OnPubComp(id: Int16)
      modifies this
      ensures State() == OnPubCompSpec(window, old(State()), id)
    {
      if window == SendWindow {
        squeue := squeue - {id};
      } else {
        rqueue := rqueue - {id};
      }
    }

    /** The cases of deliver (src/MqttClient.hpp:74-173) that touch the windows. */
    method Deliver(p: Packet)
      modifies this
      ensures State() == DeliverSpec(keep, window, old(State()), p)
    {
      match p {
        case Publish(it) => OnPublish(it);
        case PubAck(id) => OnPubAck(id);
        case PubRec(id) => OnPubRec(id);
        case PubRel(id) => OnPubRel(id);
        case PubComp(id) => OnPubComp(id);
      }
    }

    /** The oldest pending write finishes and its callback runs. When the callback
        throws, only the queue of writes has changed. */
    method Complete(ok: bool) returns (threw: bool)
      requires pending != []
      modifies this
      ensures threw <==> CompleteSpec(window, old(State()), ok) == None
      ensures !threw ==> Some(State()) == CompleteSpec(window, old(State()), ok)
      ensures threw ==> State() == old(State()).(pending := old(pending)[1..])
    {
      var p := pending[0];
      pending := pending[1..];
      match p {
        case PubRec(id) =>
          if id !in rqueue { return true; }
          rqueue := rqueue[id := rqueue[id].(status := PUBREC)];
        case PubRel(id) =>
          if ok {
            if window == SendWindow {
              if id !in squeue { return true; }
              squeue := squeue[id := squeue[id].(status := PUBREL)];
            } else {
              if id !in rqueue { return true; }
              rqueue := rqueue[id := rqueue[id].(status := PUBREL)];
            }
          }
        case PubComp(id) =>
          if ok {
            if id !in rqueue { return true; }
            rqueue := rqueue[id := rqueue[id].(status := PUBCOMP)];
            rqueue := rqueue - {id};
          }
        case _ =>
      }
      return false;
    }
  }
}
