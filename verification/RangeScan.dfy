/** The range scan `DbClient::Iter` (src/DbClient.cpp) and the callbacks it feeds
    (src/handlers/GetRangeHandler.cpp, src/GRPCServer.cpp). */
module RangeScan {
  import opened Bytes
  import opened Keys
  import opened Folders
  import opened Frames

  datatype RangeRequest = RangeRequest(from: u64, till: u64, reverse: bool, maxMessages: u64, maxBytes: u64)

  /** Who consumes the scan: the HTTP handler writes frames, the gRPC service writes messages and
      reports their protobuf size. */
  datatype Callback = HttpFrames | GrpcMessages(wireSize: Data -> nat)

  function Cost(callback: Callback, d: Data): nat {
    match callback
    case HttpFrames => HEADER_SIZE + |d.data|
    case GrpcMessages(wireSize) => wireSize(d)
  }

  class Sink {
    const callback: Callback
    var sent: seq<Entry>
    var out: seq<byte>

    constructor (callback: Callback)
      ensures this.callback == callback && sent == [] && out == []
    {
      this.callback := callback;
      sent, out := [], [];
    }

    method Send(key: ID, data: Data) returns (size: nat)
      modifies this
      ensures sent == old(sent) + [Entry(key, data)]
      ensures out == old(out) + if callback.HttpFrames? then Frame(key, data.data) else []
      ensures size == Cost(callback, data)
    {
      sent := sent + [Entry(key, data)];
      match callback
      case HttpFrames =>
        out := out + Frame(key, data.data);
        size := |data.data| + 8 + 8 + 4;
      case GrpcMessages(wireSize) =>
        size := wireSize(data);
    }
  }

  function Values(es: seq<Entry>): (ds: seq<Data>)
    ensures |ds| == |es|
  {
    seq(|es|, i requires 0 <= i < |es| => es[i].value)
  }

  /** Since the sink held sent0 and out0, exactly these entries went through it. */
  ghost predicate Sent(sink: Sink, sent0: seq<Entry>, out0: seq<byte>, done: seq<Entry>)
    reads sink
  {
    && sink.sent == sent0 + done
    && sink.out == out0 + if sink.callback.HttpFrames? then FrameAll(Values(done)) else []
  }

  // ----- what a scan should send -----

  /** The entries a scan is after. A forward scan keeps both ends; a reverse scan leaves out
      timestamp `from`, and of timestamp `till` keeps only number 0. `open` marks a reverse scan
      without upper bound. */
  datatype Window = Forward(from: u64, till: u64) | Reverse(from: u64, till: u64, open: bool)
  {
    predicate Accepts(k: ID) {
      match this
      case Forward(from, till) => from <= k.timestamp && (till == 0 || k.timestamp <= till)
      case Reverse(from, till, open) =>
        (open || CompareIDs(k, ID(till, 0)) <= 0) && (from == 0 || from < k.timestamp)
    }
  }

  function Filter(es: seq<Entry>, w: Window): seq<Entry> {
    if |es| == 0 then []
    else Filter(es[..|es| - 1], w) + if w.Accepts(es[|es| - 1].key) then [es[|es| - 1]] else []
  }

  function Reversed(es: seq<Entry>): (r: seq<Entry>)
    ensures |r| == |es|
    ensures forall i :: 0 <= i < |es| ==> r[i] == es[|es| - 1 - i]
  {
    seq(|es|, i requires 0 <= i < |es| => es[|es| - 1 - i])
  }

  /** The reverse scan falls back to the last key when no key reaches down to `till`. */
  ghost predicate NoneAtMost(es: seq<Entry>, till: u64) {
    forall i :: 0 <= i < |es| ==> CompareIDs(es[i].key, ID(till, 0)) > 0
  }

  ghost function WindowOf(es: seq<Entry>, r: RangeRequest): Window {
    if r.reverse then Reverse(r.from, r.till, r.till == 0 || NoneAtMost(es, r.till)) else Forward(r.from, r.till)
  }

  function InOrder(es: seq<Entry>, reverse: bool): (r: seq<Entry>)
    ensures |r| == |es|
  {
    if reverse then Reversed(es) else es
  }

  function Total(callback: Callback, es: seq<Entry>): nat {
    if |es| == 0 then 0 else Total(callback, es[..|es| - 1]) + Cost(callback, es[|es| - 1].value)
  }

  /** Both limits still allow another message after these. */
  predicate BelowLimits(r: RangeRequest, callback: Callback, sent: seq<Entry>) {
    (r.maxMessages == 0 || |sent| < r.maxMessages) && (r.maxBytes == 0 || Total(callback, sent) < r.maxBytes)
  }

  /** Messages are sent until a limit is reached. */
  function Cut(r: RangeRequest, callback: Callback, es: seq<Entry>): seq<Entry> {
    if |es| == 0 then []
    else
      var before := Cut(r, callback, es[..|es| - 1]);
      if |before| == |es| - 1 && BelowLimits(r, callback, before) then es else before
  }

  ghost function Scan(es: seq<Entry>, r: RangeRequest, callback: Callback): seq<Entry> {
    Cut(r, callback, Filter(InOrder(es, r.reverse), WindowOf(es, r)))
  }

  // ----- Cut is the longest permitted prefix -----

  ghost predicate Permitted(r: RangeRequest, callback: Callback, es: seq<Entry>, n: nat)
    requires n <= |es|
  {
    forall m :: 0 <= m < n ==> BelowLimits(r, callback, es[..m])
  }

  lemma {:induction false} CutIsPrefix(r: RangeRequest, callback: Callback, es: seq<Entry>)
    ensures |Cut(r, callback, es)| <= |es| && Cut(r, callback, es) == es[..|Cut(r, callback, es)|]
  {
    if |es| > 0 {
      var init := es[..|es| - 1];
      CutIsPrefix(r, callback, init);
      var n := |Cut(r, callback, init)|;
      assert init[..n] == es[..n];
    }
  }

  lemma PermittedInit(r: RangeRequest, callback: Callback, es: seq<Entry>, n: nat)
    requires |es| > 0 && n < |es|
    ensures Permitted(r, callback, es, n) <==> Permitted(r, callback, es[..|es| - 1], n)
  {
    var init := es[..|es| - 1];
    assert forall m :: 0 <= m < n ==> es[..m] == init[..m];
  }

  /** `Cut` is a prefix; it and only the prefixes no longer than it stay below every nonzero limit
      until their last message. */
  lemma {:induction false} CutIsLongest(r: RangeRequest, callback: Callback, es: seq<Entry>)
    ensures |Cut(r, callback, es)| <= |es| && Cut(r, callback, es) == es[..|Cut(r, callback, es)|]
    ensures forall n :: 0 <= n <= |es| ==> (Permitted(r, callback, es, n) <==> n <= |Cut(r, callback, es)|)
  {
    CutIsPrefix(r, callback, es);
    if |es| > 0 {
      var init := es[..|es| - 1];
      CutIsLongest(r, callback, init);
      forall n | 0 <= n <= |init|
        ensures Permitted(r, callback, es, n) <==> n <= |Cut(r, callback, init)|
      {
        PermittedInit(r, callback, es, n);
      }
      assert init[..|init|] == init;
      assert Permitted(r, callback, es, |es|) <==> Permitted(r, callback, es, |init|) && BelowLimits(r, callback, init);
    }
  }

  lemma CutUnique(r: RangeRequest, callback: Callback, es: seq<Entry>, n: nat)
    requires n <= |es| && Permitted(r, callback, es, n)
    requires n < |es| ==> !BelowLimits(r, callback, es[..n])
    ensures Cut(r, callback, es) == es[..n]
  {
    CutIsLongest(r, callback, es);
    if n < |es| {
      assert !Permitted(r, callback, es, n + 1);
    }
  }

  lemma CutUnlimited(r: RangeRequest, callback: Callback, es: seq<Entry>)
    requires r.maxMessages == 0 && r.maxBytes == 0
    ensures Cut(r, callback, es) == es
  {
  }

  /** A scan overshoots a byte limit by less than its last message. */
  lemma CutBytes(r: RangeRequest, callback: Callback, es: seq<Entry>)
    requires r.maxBytes > 0
    ensures var cut := Cut(r, callback, es);
            |cut| > 0 ==> Total(callback, cut) < r.maxBytes + Cost(callback, cut[|cut| - 1].value)
  {
    CutIsLongest(r, callback, es);
    var n := |Cut(r, callback, es)|;
    if n > 0 {
      assert Permitted(r, callback, es, n);
      assert BelowLimits(r, callback, es[..n - 1]);
      assert Cut(r, callback, es)[..n - 1] == es[..n - 1];
    }
  }

  // ----- what the limits mean -----

  /** Protobuf bytes of a list of messages. */
  function WireBytes(wireSize: Data -> nat, ds: seq<Data>): nat {
    if |ds| == 0 then 0 else WireBytes(wireSize, ds[..|ds| - 1]) + wireSize(ds[|ds| - 1])
  }

  /** What counts against a byte limit: protobuf bytes over gRPC, the bytes of the body over HTTP. */
  lemma {:induction false} TotalIsBytes(callback: Callback, es: seq<Entry>)
    ensures callback.GrpcMessages? ==> Total(callback, es) == WireBytes(callback.wireSize, Values(es))
    ensures callback.HttpFrames? ==> Total(callback, es) == |FrameAll(Values(es))|
  {
    if |es| > 0 {
      TotalIsBytes(callback, es[..|es| - 1]);
      assert Values(es)[..|es| - 1] == Values(es[..|es| - 1]);
    }
  }

  /** The part of `all` that the limits let through: as many as asked for at most, all of them or up to
      a limit, and nothing more once the bytes reach theirs. */
  ghost predicate CutAtLimits(r: RangeRequest, callback: Callback, all: seq<Entry>, cut: seq<Entry>) {
    && |cut| <= |all| && cut == all[..|cut|]
    && (r.maxMessages > 0 ==> |cut| <= r.maxMessages)
    && (r.maxBytes > 0 ==> forall m :: 0 <= m < |cut| ==> Total(callback, cut[..m]) < r.maxBytes)
    && (|cut| < |all| ==> |cut| == r.maxMessages > 0 || Total(callback, cut) >= r.maxBytes > 0)
  }

  /** It is the only such part. */
  lemma CutAtLimitsIff(r: RangeRequest, callback: Callback, all: seq<Entry>, cut: seq<Entry>)
    ensures cut == Cut(r, callback, all) <==> CutAtLimits(r, callback, all, cut)
  {
    var n := |Cut(r, callback, all)|;
    CutIsLongest(r, callback, all);
    assert forall m :: 0 <= m < n ==> Cut(r, callback, all)[..m] == all[..m];
    assert Permitted(r, callback, all, n);
    assert forall m :: 0 <= m < n ==> BelowLimits(r, callback, all[..m]);
    assert n < |all| ==> !Permitted(r, callback, all, n + 1);
    assert n < |all| ==> !BelowLimits(r, callback, all[..n]);
    if CutAtLimits(r, callback, all, cut) {
      forall m | 0 <= m < |cut|
        ensures BelowLimits(r, callback, all[..m])
      {
        assert cut[..m] == all[..m];
      }
      CutUnique(r, callback, all, |cut|);
    }
  }

  /** Without a byte limit a scan sends the smaller of the limit and what there is; in general it
      stops early only at a limit. */
  lemma CutLimits(r: RangeRequest, callback: Callback, all: seq<Entry>)
    ensures var n := |Cut(r, callback, all)|;
            && n <= |all|
            && (r.maxMessages > 0 ==> n <= r.maxMessages)
            && (r.maxBytes == 0 ==> n == if 0 < r.maxMessages < |all| then r.maxMessages else |all|)
            && (n < |all| ==> n == r.maxMessages > 0 || Total(callback, Cut(r, callback, all)) >= r.maxBytes > 0)
  {
    CutAtLimitsIff(r, callback, all, Cut(r, callback, all));
  }

  // ----- Filter -----

  lemma {:induction false} FilterAppend(xs: seq<Entry>, ys: seq<Entry>, w: Window)
    ensures Filter(xs + ys, w) == Filter(xs, w) + Filter(ys, w)
  {
    if |ys| == 0 {
      assert xs + ys == xs;
    } else {
      FilterAppend(xs, ys[..|ys| - 1], w);
      assert (xs + ys)[..|xs + ys| - 1] == xs + ys[..|ys| - 1];
    }
  }

  lemma {:induction false} FilterNone(es: seq<Entry>, w: Window)
    requires forall i :: 0 <= i < |es| ==> !w.Accepts(es[i].key)
    ensures Filter(es, w) == []
  {
    if |es| > 0 {
      FilterNone(es[..|es| - 1], w);
    }
  }

  lemma {:induction false} FilterMembers(es: seq<Entry>, w: Window)
    ensures forall e :: e in Filter(es, w) <==> e in es && w.Accepts(e.key)
  {
    if |es| > 0 {
      FilterMembers(es[..|es| - 1], w);
      assert es == es[..|es| - 1] + [es[|es| - 1]];
    }
  }

  ghost predicate Ascending(es: seq<Entry>) {
    forall i, j :: 0 <= i < j < |es| ==> Earlier(es[i].key, es[j].key)
  }

  lemma {:induction false} FilterAscending(es: seq<Entry>, w: Window)
    requires Ascending(es)
    ensures Ascending(Filter(es, w))
  {
    if |es| > 0 {
      FilterAscending(es[..|es| - 1], w);
      FilterMembers(es[..|es| - 1], w);
      var init := Filter(es[..|es| - 1], w);
      forall i | 0 <= i < |init|
        ensures Earlier(init[i].key, es[|es| - 1].key)
      {
        assert init[i] in es[..|es| - 1];
      }
    }
  }

  lemma {:induction false} FilterReversed(es: seq<Entry>, w: Window)
    ensures Filter(Reversed(es), w) == Reversed(Filter(es, w))
  {
    if |es| == 0 {
      assert Reversed(es) == [];
    } else {
      var init, last := es[..|es| - 1], es[|es| - 1];
      assert Reversed(es) == [last] + Reversed(init);
      FilterAppend([last], Reversed(init), w);
      assert [last][..0] == [];
      FilterReversed(init, w);
      ReversedAppend(Filter(init, w), if w.Accepts(last.key) then [last] else []);
    }
  }

  lemma ReversedAppend(xs: seq<Entry>, ys: seq<Entry>)
    ensures Reversed(xs + ys) == Reversed(ys) + Reversed(xs)
  {
  }

  // ----- the scan itself -----

  /** A position in scan order, seen as a cursor position. */
  function CursorAt(n: nat, reverse: bool, j: int): int {
    if reverse then n - 1 - j else j
  }

  /** From position j on, a reverse scan is below its upper bound. */
  ghost predicate Within(es: seq<Entry>, r: RangeRequest, j: nat) {
    r.reverse && !WindowOf(es, r).open
    ==> forall k :: j <= k < |es| ==> CompareIDs(InOrder(es, true)[k].key, ID(r.till, 0)) <= 0
  }

  /** Where the scan starts: nothing before that point, in scan order, is in the window. */
  method Seek(cursor: Cursor, r: RangeRequest) returns (ghost start: nat)
    requires Stored(cursor.es)
    modifies cursor
    ensures start <= |cursor.es| && cursor.pos == CursorAt(|cursor.es|, r.reverse, start)
    ensures forall j :: 0 <= j < start ==> !WindowOf(cursor.es, r).Accepts(InOrder(cursor.es, r.reverse)[j].key)
    ensures Within(cursor.es, r, start)
  {
    start := 0;
    if !r.reverse && r.from == 0 {
      cursor.SeekToFirst();
    } else if r.reverse && r.till == 0 {
      cursor.SeekToLast();
    } else {
      var keyFrom := ID(if !r.reverse then r.from else r.till, 0);
      TimedProbeIsSearchable(cursor.es, keyFrom);
      cursor.SeekForPrev(keyFrom);
      var at := cursor.pos;
      if !cursor.Valid() {
        if !r.reverse {
          cursor.SeekToFirst();
        } else {
          cursor.SeekToLast();
        }
      } else {
        start := if r.reverse then |cursor.es| - 1 - at else at;
        if r.reverse {
          ReachesDown(cursor.es, keyFrom, at);
        } else {
          forall j | 0 <= j < start
            ensures cursor.es[j].key.timestamp < r.from
          {
            assert Earlier(cursor.es[j].key, cursor.es[at].key);
          }
        }
      }
    }
  }

  lemma ReachesDown(es: seq<Entry>, p: ID, at: nat)
    requires Stored(es) && p.timestamp != 0 && at == LastAtMost(es, p)
    ensures forall k :: 0 <= k < |es| ==> (CompareIDs(es[k].key, p) <= 0 <==> k <= at)
  {
  }

  /** The first j entries in scan order have been dealt with: those in the window were sent. */
  ghost predicate Progress(es: seq<Entry>, r: RangeRequest, callback: Callback, j: nat, done: seq<Entry>) {
    && j <= |es|
    && done == Filter(InOrder(es, r.reverse)[..j], WindowOf(es, r))
    && Permitted(r, callback, done, |done|)
  }

  lemma ProgressStart(es: seq<Entry>, r: RangeRequest, callback: Callback, j: nat)
    requires j <= |es|
    requires forall k :: 0 <= k < j ==> !WindowOf(es, r).Accepts(InOrder(es, r.reverse)[k].key)
    ensures Progress(es, r, callback, j, [])
  {
    FilterNone(InOrder(es, r.reverse)[..j], WindowOf(es, r));
  }

  lemma NothingSent(sink: Sink)
    ensures Sent(sink, sink.sent, sink.out, [])
  {
  }

  lemma ProgressSkip(es: seq<Entry>, r: RangeRequest, callback: Callback, j: nat, done: seq<Entry>)
    requires Progress(es, r, callback, j, done) && j < |es|
    requires !WindowOf(es, r).Accepts(InOrder(es, r.reverse)[j].key)
    ensures Progress(es, r, callback, j + 1, done)
  {
    FilterSplit(InOrder(es, r.reverse), j, WindowOf(es, r));
    assert done + [] == done;
  }

  lemma ProgressSend(es: seq<Entry>, r: RangeRequest, callback: Callback, j: nat, done: seq<Entry>)
    requires Progress(es, r, callback, j, done) && j < |es|
    requires WindowOf(es, r).Accepts(InOrder(es, r.reverse)[j].key) && BelowLimits(r, callback, done)
    ensures Progress(es, r, callback, j + 1, done + [InOrder(es, r.reverse)[j]])
  {
    FilterSplit(InOrder(es, r.reverse), j, WindowOf(es, r));
    PermittedStep(r, callback, done, InOrder(es, r.reverse)[j]);
  }

  /** The scan is complete when nothing is left in the window, or when a limit holds it back. */
  lemma ProgressEnd(es: seq<Entry>, r: RangeRequest, callback: Callback, j: nat, done: seq<Entry>)
    requires Progress(es, r, callback, j, done)
    requires j == |es| || Filter(InOrder(es, r.reverse)[j..], WindowOf(es, r)) == [] || !BelowLimits(r, callback, done)
    ensures done == Scan(es, r, callback)
  {
    var xs, w := InOrder(es, r.reverse), WindowOf(es, r);
    FilterSplit(xs, j, w);
    var all := Filter(xs, w);
    assert all[..|done|] == done;
    assert forall m :: 0 <= m < |done| ==> all[..m] == done[..m];
    CutUnique(r, callback, all, |done|);
  }

  /** Hands the current entry to the callback. */
  method SendNext(sink: Sink, e: Entry, ghost sent0: seq<Entry>, ghost out0: seq<byte>, ghost done: seq<Entry>)
    returns (size: nat)
    requires e.value.id == e.key && Sent(sink, sent0, out0, done)
    modifies sink
    ensures Sent(sink, sent0, out0, done + [e])
    ensures size == Cost(sink.callback, e.value)
    ensures Total(sink.callback, done + [e]) == Total(sink.callback, done) + size
  {
    size := sink.Send(e.key, e.value);
    SendStep(sink.callback, done, e);
  }

  /** One turn of the scan loop on the entry under the cursor, the j-th in scan order. */
  method Turn(es: seq<Entry>, r: RangeRequest, sink: Sink, e: Entry, messagesSend: nat, bytesSend: nat,
              ghost j: nat, ghost done: seq<Entry>, ghost sent0: seq<Entry>, ghost out0: seq<byte>)
    returns (stop: bool, messages: nat, bytes: nat, ghost done': seq<Entry>)
    requires Stored(es) && j < |es| && e == InOrder(es, r.reverse)[j] && Within(es, r, j)
    requires Progress(es, r, sink.callback, j, done) && Sent(sink, sent0, out0, done)
    requires messagesSend == |done| && bytesSend == Total(sink.callback, done)
    modifies sink
    ensures Sent(sink, sent0, out0, done')
    ensures messages == |done'| && bytes == Total(sink.callback, done')
    ensures if stop then done' == Scan(es, r, sink.callback) else Progress(es, r, sink.callback, j + 1, done')
  {
    var key := e.key;
    stop, messages, bytes, done' := false, messagesSend, bytesSend, done;
    if !r.reverse && r.till != 0 && r.till < key.timestamp {
      NothingLater(es, r, j);
      stop := true;
    } else if r.reverse && r.from != 0 && r.from >= key.timestamp {
      NothingLater(es, r, j);
      stop := true;
    } else if !r.reverse && r.from > key.timestamp {
      ProgressSkip(es, r, sink.callback, j, done);
    } else if r.maxBytes != 0 && r.maxBytes <= bytesSend {
      stop := true;
    } else if r.maxMessages != 0 && r.maxMessages <= messagesSend {
      stop := true;
    } else {
      ProgressSend(es, r, sink.callback, j, done);
      var size := SendNext(sink, e, sent0, out0, done);
      messages, bytes, done' := messagesSend + 1, bytesSend + size, done + [e];
    }
    if stop {
      ProgressEnd(es, r, sink.callback, j, done);
    }
  }

  lemma ScanAtMost(es: seq<Entry>, r: RangeRequest, callback: Callback)
    ensures r.maxMessages > 0 ==> |Scan(es, r, callback)| <= r.maxMessages
  {
    CutLimits(r, callback, Filter(InOrder(es, r.reverse), WindowOf(es, r)));
  }

  /** `DbClient::Iter`: sends the scan's messages to the sink, in order. */
  method Iter(es: seq<Entry>, r: RangeRequest, sink: Sink) returns (messagesSend: nat, bytesSend: nat)
    requires Stored(es)
    modifies sink
    ensures Sent(sink, old(sink.sent), old(sink.out), Scan(es, r, sink.callback))
    ensures messagesSend == |Scan(es, r, sink.callback)|
    ensures bytesSend == Total(sink.callback, Scan(es, r, sink.callback))
    ensures r.maxMessages > 0 ==> messagesSend <= r.maxMessages
  {
    ScanAtMost(es, r, sink.callback);
    var iter := new Cursor(es);
    ghost var j := Seek(iter, r);
    messagesSend, bytesSend := 0, 0;
    ghost var done: seq<Entry> := [];
    ProgressStart(es, r, sink.callback, j);
    NothingSent(sink);
    while iter.Valid()
      invariant 0 <= j <= |es| && iter.pos == CursorAt(|es|, r.reverse, j) && Within(es, r, j)
      invariant Progress(es, r, sink.callback, j, done)
      invariant Sent(sink, old(sink.sent), old(sink.out), done)
      invariant messagesSend == |done| && bytesSend == Total(sink.callback, done)
      decreases |es| - j
    {
      var stop;
      stop, messagesSend, bytesSend, done :=
        Turn(es, r, sink, iter.Current(), messagesSend, bytesSend, j, done, old(sink.sent), old(sink.out));
      if stop {
        return;
      }
      j := j + 1;
      if r.reverse {
        iter.Prev();
      } else {
        iter.Next();
      }
    }
    ProgressEnd(es, r, sink.callback, j, done);
  }

  lemma SendStep(callback: Callback, done: seq<Entry>, e: Entry)
    ensures Total(callback, done + [e]) == Total(callback, done) + Cost(callback, e.value)
    ensures FrameAll(Values(done + [e])) == FrameAll(Values(done)) + Frame(e.value.id, e.value.data)
  {
    assert (done + [e])[..|done|] == done;
    assert Values(done + [e])[..|done|] == Values(done);
  }

  lemma PermittedStep(r: RangeRequest, callback: Callback, done: seq<Entry>, e: Entry)
    requires Permitted(r, callback, done, |done|) && BelowLimits(r, callback, done)
    ensures Permitted(r, callback, done + [e], |done| + 1)
  {
    assert forall m :: 0 <= m <= |done| ==> (done + [e])[..m] == done[..m];
    assert done[..|done|] == done;
  }

  lemma FilterSplit(xs: seq<Entry>, j: nat, w: Window)
    requires j <= |xs|
    ensures Filter(xs, w) == Filter(xs[..j], w) + Filter(xs[j..], w)
    ensures j < |xs| ==> Filter(xs[..j + 1], w) == Filter(xs[..j], w) + if w.Accepts(xs[j].key) then [xs[j]] else []
    ensures j < |xs| && w.Accepts(xs[j].key) ==> |Filter(xs, w)| > |Filter(xs[..j], w)|
  {
    FilterAppend(xs[..j], xs[j..], w);
    assert xs == xs[..j] + xs[j..];
    if j < |xs| {
      assert xs[..j + 1][..j] == xs[..j];
      FilterMembers(xs[j..], w);
      assert xs[j] in xs[j..];
    }
  }

  /** Once the scan leaves the window it does not come back. */
  lemma NothingLater(es: seq<Entry>, r: RangeRequest, j: nat)
    requires Stored(es) && j < |es|
    requires var ts := InOrder(es, r.reverse)[j].key.timestamp;
             if r.reverse then r.from != 0 && r.from >= ts else r.till != 0 && r.till < ts
    ensures Filter(InOrder(es, r.reverse)[j..], WindowOf(es, r)) == []
  {
    var xs := InOrder(es, r.reverse);
    forall k | j < k < |xs|
      ensures !WindowOf(es, r).Accepts(xs[k].key)
    {
      if r.reverse {
        assert Earlier(es[|es| - 1 - k].key, es[|es| - 1 - j].key);
      } else {
        assert Earlier(es[j].key, es[k].key);
      }
    }
    FilterNone(xs[j..], WindowOf(es, r));
  }
}
