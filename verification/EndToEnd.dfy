/** From a client's save to a client's download, through the whole system. */
module EndToEnd {
  import opened Bytes
  import opened Options
  import opened Folders
  import opened Frames
  import opened RangeScan
  import opened ScanLaws
  import opened Payload
  import opened Runs
  import opened RunLaws

  const EVERYTHING := RangeRequest(0, 0, false, 0, 0)

  /** The body of an HTTP range request for everything in the folder, parsed by the client. */
  ghost function Download(events: seq<Event>, f: string): Result<seq<TsRecord>> {
    Records(FrameAll(Values(Scan(EntriesOf(After(events), f), EVERYTHING, HttpFrames))))
  }

  lemma EntriesAreStored(events: seq<Event>, f: string)
    requires Lawful(events, f)
    ensures Stored(EntriesOf(After(events), f))
  {
    if f in After(events).families {
      RunInvariant(events, f);
    }
  }

  lemma DownloadIsRecords(events: seq<Event>, f: string)
    requires Lawful(events, f)
    ensures Download(events, f) == Ok(RecordsOf(Values(EntriesOf(After(events), f))))
  {
    var es := EntriesOf(After(events), f);
    EntriesAreStored(events, f);
    WholeFolderMirror(es, EVERYTHING, HttpFrames);
    RecordsOfFrames(Values(es));
  }

  lemma RecordOfEntry(es: seq<Entry>, i: nat)
    requires Stored(es) && i < |es|
    ensures var record, saved := RecordsOf(Values(es))[i], Contents(es)[i];
            && record.ts == ToNumber(Signed(saved.0, TWO64))
            && |record.entries| == 1 && record.entries[0].data == saved.1
            && record.entries[0].uid == ToNumber(Signed(es[i].key.unique, TWO64))
  {
    assert RecordsOf(Values(es))[i] == RecordOf(es[i].value);
    assert es[i].value.id == es[i].key;
  }

  /** After any lawful run, downloading a folder and parsing the frames gives one record per save, in
      the order of the saves, each with the saved bytes and with the saved timestamp and the stored number
      as doubles. */
  lemma DownloadIsTimeline(events: seq<Event>, f: string)
    requires Lawful(events, f)
    ensures Download(events, f).Ok?
    ensures var records, saves := Download(events, f).value, Timeline(events, f);
            && |records| == |saves| == |EntriesOf(After(events), f)|
            && forall i :: 0 <= i < |saves| ==>
                 && records[i].ts == ToNumber(Signed(saves[i].0, TWO64))
                 && |records[i].entries| == 1 && records[i].entries[0].data == saves[i].1
                 && records[i].entries[0].uid == ToNumber(Signed(EntriesOf(After(events), f)[i].key.unique, TWO64))
    ensures var records, saves := Download(events, f).value, SavesInto(events, f);
            && |records| == |saves|
            && forall i :: 0 <= i < |saves| ==>
                 && |records[i].entries| == 1 && records[i].entries[0].data == saves[i].data
                 && (saves[i].ts != 0 ==> records[i].ts == ToNumber(Signed(saves[i].ts, TWO64)))
                 && (saves[i].ts == 0 ==> records[i].ts == ToNumber(Signed(saves[i].now, TWO64)))
  {
    var es := EntriesOf(After(events), f);
    EntriesAreStored(events, f);
    LawfulIsTimeline(events, f);
    TimelineOfSaves(events, f);
    DownloadIsRecords(events, f);
    forall i | 0 <= i < |Timeline(events, f)|
      ensures var record, saved := RecordsOf(Values(es))[i], Timeline(events, f)[i];
              && record.ts == ToNumber(Signed(saved.0, TWO64))
              && |record.entries| == 1 && record.entries[0].data == saved.1
              && record.entries[0].uid == ToNumber(Signed(es[i].key.unique, TWO64))
    {
      RecordOfEntry(es, i);
    }
  }

  /** A request and response saved in the client layout come back from the download. */
  lemma PayloadComesBack(events: seq<Event>, f: string, i: nat, req: seq<byte>, resp: seq<byte>, tag: nat)
    requires Lawful(events, f) && i < |Timeline(events, f)|
    requires 14 + |req| + |resp| < TWO31 && (tag == 2 || tag == 3)
    requires Timeline(events, f)[i].1 == Layout(req, resp, tag)
    ensures Download(events, f).Ok? && i < |Download(events, f).value| && |Download(events, f).value[i].entries| == 1
    ensures AsServingReqRes(Download(events, f).value[i].entries[0].data)
         == Ok(ReqRes(req, if tag == 2 then ExecutionError(resp) else PredictResponse(resp)))
  {
    DownloadIsTimeline(events, f);
    PayloadRoundTrip(req, resp, tag);
  }
}
