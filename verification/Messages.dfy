/** The messages a thread sends and how the collector reads them. */
module Messages {
  import opened Prelude

  const ADD_PROCESS := 1
  const REMOVE_PROCESS := 2

  /** `struct message`. */
  datatype RawMessage = RawMessage(tid: int, flags: nat)

  datatype MessageFlag = AddProcess | RemoveProcess

  datatype ThreadstatMessage = ThreadstatMessage(tid: int, flag: MessageFlag)

  datatype UnknownFlag = UnknownFlag(flags: nat)

  function TryFrom(msg: RawMessage): Result<ThreadstatMessage, UnknownFlag> {
    if msg.flags == ADD_PROCESS then Ok(ThreadstatMessage(msg.tid, AddProcess))
    else if msg.flags == REMOVE_PROCESS then Ok(ThreadstatMessage(msg.tid, RemoveProcess))
    else Err(UnknownFlag(msg.flags))
  }

  /** What the preloaded wrapper puts on the queue. */
  function ToRaw(msg: ThreadstatMessage): RawMessage {
    RawMessage(msg.tid, if msg.flag == AddProcess then ADD_PROCESS else REMOVE_PROCESS)
  }

  /** Decoding and encoding are inverse: flag 1 announces, flag 2 retires, and exactly the other
      flags are refused. */
  lemma {:induction false} FlagRoundTrip(msg: ThreadstatMessage, raw: RawMessage)
    ensures TryFrom(raw) == Ok(msg) <==> raw == ToRaw(msg)
    ensures TryFrom(raw).Err? <==> forall m :: raw != ToRaw(m)
    ensures TryFrom(raw) == (match raw.flags
                             case 1 => Ok(ThreadstatMessage(raw.tid, AddProcess))
                             case 2 => Ok(ThreadstatMessage(raw.tid, RemoveProcess))
                             case _ => Err(UnknownFlag(raw.flags)))
  {
    if TryFrom(raw).Ok? {
      assert raw == ToRaw(TryFrom(raw).value);
    }
  }
}
