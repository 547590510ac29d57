/** `CsvWriter`: three files that grow by one line per call. Writing never fails here. */
module CsvOutput {
  import opened CsvText

  class CsvWriter {
    var event: string
    var read: string
    var desc: string
    ghost var eventRows: seq<EventRow>
    ghost var readRows: seq<ReadRow>
    ghost var descRows: seq<DescRow>

    ghost predicate Valid()
      reads this
    {
      event == EventText(eventRows) && read == ReadText(readRows) && desc == DescText(descRows)
    }

    constructor Open()
      ensures Valid() && eventRows == [] && readRows == [] && descRows == []
    {
      event := EVENT_HEADER + "\n";
      read := READ_HEADER + "\n";
      desc := DESC_HEADER + "\n";
      eventRows, readRows, descRows := [], [], [];
      assert forall h: string :: h + ['\n'] + "" == h + "\n";
    }

    method WriteEvent(readId: nat, count: nat, id: nat)
      requires Valid()
      modifies this
      ensures Valid() && eventRows == old(eventRows) + [EventRow(readId, count, id)]
      ensures readRows == old(readRows) && descRows == old(descRows)
    {
      TextSnoc(EVENT_HEADER, eventRows, EventRow(readId, count, id), EventFields);
      event := event + Line([Decimal(readId), Decimal(count), Decimal(id)]);
      eventRows := eventRows + [EventRow(readId, count, id)];
    }

    method WriteRead(readId: nat, timestamp: nat, timeRunning: nat, timeEnabled: nat)
      requires Valid()
      modifies this
      ensures Valid() && readRows == old(readRows) + [ReadRow(readId, timestamp, timeRunning, timeEnabled)]
      ensures eventRows == old(eventRows) && descRows == old(descRows)
    {
      TextSnoc(READ_HEADER, readRows, ReadRow(readId, timestamp, timeRunning, timeEnabled), ReadRowFields);
      read := read + Line([Decimal(readId), Decimal(timestamp), Decimal(timeRunning), Decimal(timeEnabled)]);
      readRows := readRows + [ReadRow(readId, timestamp, timeRunning, timeEnabled)];
    }

    method WriteDesc(id: nat, name: string, tid: int)
      requires Valid()
      modifies this
      ensures Valid() && descRows == old(descRows) + [DescRow(id, name, tid)]
      ensures eventRows == old(eventRows) && readRows == old(readRows)
    {
      TextSnoc(DESC_HEADER, descRows, DescRow(id, name, tid), DescFields);
      desc := desc + Line([Decimal(id), name, SignedDecimal(tid)]);
      descRows := descRows + [DescRow(id, name, tid)];
    }
  }
}
