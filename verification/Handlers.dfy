/** `queue_handler`: one queue message, one operation on the state. */
module Handlers {
  import opened Messages
  import opened Collector
  import opened CollectorState
  import Poll

  /** The outcome of one `mq_receive`. */
  datatype Received = ReceiveFailed | WrongSize | Message(raw: RawMessage)

  /** The operation a received message stands for; anything unreadable is skipped. */
  function QueueOp(received: Received, opens: Opens, readings: Readings): Op {
    match received
    case Message(raw) =>
      (match TryFrom(raw)
       case Ok(msg) =>
         (match msg.flag
          case AddProcess => Open(msg.tid, opens)
          case RemoveProcess => Close(msg.tid, readings))
       case Err(_) => Nothing)
    case _ => Nothing
  }

  method QueueHandler(received: Received, state: State, opens: Opens, readings: Readings, ghost stamp: nat)
    returns (reply: Poll.Reply)
    requires state.Valid()
    modifies state, state.reader, state.reader.data, state.csv
    ensures state.Valid() && state.View() == Apply(old(state.View()), QueueOp(received, opens, readings), stamp)
    ensures reply == Poll.Reply.Ok(Poll.Continue)
    // flag 1 opens the thread, flag 2 closes it, and anything else leaves the state alone
    ensures received.Message? && received.raw.flags == 1 ==>
              state.View() == Collector.OpenTid(old(state.View()), received.raw.tid, opens, stamp)
    ensures received.Message? && received.raw.flags == 2 ==>
              state.View() == Collector.CloseTid(old(state.View()), received.raw.tid, readings)
    ensures !received.Message? || received.raw.flags !in {1, 2} ==> state.View() == old(state.View())
  {
    hide Collector.OpenTid, Collector.CloseTid, Collector.FlushAll;
    match received {
      case Message(raw) =>
        match TryFrom(raw) {
          case Ok(msg) =>
            match msg.flag {
              case AddProcess => state.OpenTid(msg.tid, opens, stamp);
              case RemoveProcess => state.CloseTid(msg.tid, readings);
            }
          case Err(_) =>
        }
      case ReceiveFailed =>
      case WrongSize =>
    }
    reply := Poll.Reply.Ok(Poll.Continue);
  }

  /** The flush timer's handler: a failed read is reported, an expiration flushes. */
  method TimerHandler(expired: bool, state: State, order: seq<int>, readings: Readings, ghost stamp: nat)
    returns (reply: Poll.Reply)
    requires state.Valid()
    modifies state, state.reader, state.reader.data, state.csv
    ensures state.Valid()
    ensures expired ==> reply == Poll.Reply.Ok(Poll.Continue)
    ensures expired ==> state.View() == Apply(old(state.View()), Flush(order, readings), stamp)
    ensures expired ==> state.View() == Collector.FlushAll(old(state.View()), order, readings)
    ensures !expired ==> reply == Poll.Reply.Failed(-1) && state.View() == old(state.View())
  {
    if !expired {
      return Poll.Reply.Failed(-1);
    }
    state.FlushAll(order, readings);
    reply := Poll.Reply.Ok(Poll.Continue);
  }
}
