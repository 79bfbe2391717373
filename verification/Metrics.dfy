/**
  The metrics collector: cumulative counters become rates over a run of polls.

  A poll may find no container list, no host sample or no container samples.  What is shown
  must still add up.
  */
module Metrics {
  import opened Common
  import opened Text

  datatype ContainerInfo = ContainerInfo(name: string, status: string)

  datatype Sample = Sample(cpuSeconds: real, cpuCount: real, memTotal: real, memAvailable: real,
                           diskReadBytes: real, diskWriteBytes: real, netRxBytes: real, netTxBytes: real)

  datatype HostSample = HostSample(cpuTotal: real, cpuIdle: real, memTotal: real, memAvail: real,
                                   diskRead: real, diskWrite: real, netRx: real, netTx: real)

  datatype Timed<S> = Timed(at: real, sample: S)

  datatype Row = Row(name: string, kind: string, status: string, cpu: Option<real>, memory: Option<real>,
                     memoryTotal: Option<int>, memoryFree: Option<int>, io: Option<real>, ioRead: Option<real>, ioWrite: Option<real>,
                     network: Option<real>, networkRx: Option<real>, networkTx: Option<real>)

  const HOST_NAME := "host"
  const HOST_KIND := "Host"
  const CONTAINER_KIND := "Container"
  const RUNNING := "Running"
  const NO_SAMPLE := Sample(0.0, 0.0, 0.0, 0.0, 0.0, 0.0, 0.0, 0.0)

  function EmptyRow(name: string, kind: string, status: string): Row {
    Row(name, kind, status, None, None, None, None, None, None, None, None, None, None)
  }

  function Rate(cur: real, prev: real, dt: real): real {
    if dt <= 0.0 || cur < prev then 0.0 else (cur - prev) / dt
  }

  function ClampPercent(v: real): real {
    if v < 0.0 then 0.0 else if v > 100.0 then 100.0 else v
  }

  function ThroughputToPercent(v: real, cap: real): real {
    if cap <= 0.0 then 0.0 else ClampPercent(v / cap * 100.0)
  }

  function RateToPercent(delta: real, idleDelta: real, dt: real): Option<real> {
    if dt <= 0.0 || delta <= 0.0 then None else Some(ClampPercent((delta - idleDelta) / delta * 100.0))
  }

  /** A rate times the time it stands for is what was counted, and never less than nothing. */
  lemma RateTimesTime(cur: real, prev: real, dt: real)
    requires dt > 0.0
    ensures Rate(cur, prev, dt) * dt == (if cur < prev then 0.0 else cur - prev) && Rate(cur, prev, dt) >= 0.0
  {
  }

  /** The share of the time that was not idle: nothing if all was idle, 100 if none was, and in proportion between. */
  lemma BusyShare(delta: real, idleDelta: real, dt: real)
    requires dt > 0.0 && delta > 0.0 && 0.0 <= idleDelta <= delta
    ensures var busy := RateToPercent(delta, idleDelta, dt);
            && busy.Some? && busy.value * delta == (delta - idleDelta) * 100.0
            && (busy.value == 0.0 <==> idleDelta == delta) && (busy.value == 100.0 <==> idleDelta == 0.0)
  {
    var share := (delta - idleDelta) / delta;
    assert share * delta == delta - idleDelta;
    assert share <= 1.0 by {
      if share > 1.0 {
        assert share * delta > delta;
      }
    }
    assert share == 1.0 <==> idleDelta == 0.0 by {
      if idleDelta == 0.0 {
        assert share == delta / delta;
      }
    }
    assert (share * 100.0) * delta == (share * delta) * 100.0;
  }

  /** The share of a ceiling: in proportion below it, and 100 from there on. */
  lemma ThroughputShare(v: real, cap: real)
    requires v >= 0.0 && cap > 0.0
    ensures ThroughputToPercent(v, cap) == 100.0 <==> v >= cap
    ensures v <= cap ==> ThroughputToPercent(v, cap) * cap == v * 100.0
  {
    var share := v / cap;
    assert share * cap == v;
    assert share >= 1.0 <==> v >= cap by {
      if share >= 1.0 {
        assert share * cap >= cap;
      } else {
        assert share * cap < cap;
      }
    }
    assert (share * 100.0) * cap == (share * cap) * 100.0;
  }

  /** What a poll comes across. */
  datatype Input = Input(containers: Option<seq<ContainerInfo>>, now: real, host: Option<HostSample>, samples: Option<map<string, Sample>>)

  /** `host` is the last host sample; `containers` the samples of the last completed poll. */
  datatype State = State(host: Option<Timed<HostSample>>, containers: map<string, Timed<Sample>>, rows: map<string, Row>)

  datatype Caps = Caps(disk: real, network: real)

  const ZERO_HOST := HostSample(0.0, 0.0, 0.0, 0.0, 0.0, 0.0, 0.0, 0.0)

  predicate Sampled(i: Input) {
    i.containers.Some? && i.host.Some? && i.host.value != ZERO_HOST
  }

  function HostUsage(row: Row, prev: HostSample, cur: HostSample, dt: real, caps: Caps): Row {
    if dt <= 0.0 then row
    else
      var read, write := Rate(cur.diskRead, prev.diskRead, dt), Rate(cur.diskWrite, prev.diskWrite, dt);
      var rx, tx := Rate(cur.netRx, prev.netRx, dt), Rate(cur.netTx, prev.netTx, dt);
      var memory := if cur.memTotal > 0.0
                    then row.(memory := Some(ClampPercent((cur.memTotal - cur.memAvail) / cur.memTotal * 100.0)),
                              memoryTotal := Some(cur.memTotal.Floor), memoryFree := Some(cur.memAvail.Floor))
                    else row;
      memory.(cpu := RateToPercent(cur.cpuTotal - prev.cpuTotal, cur.cpuIdle - prev.cpuIdle, dt),
              ioRead := Some(read), ioWrite := Some(write), io := Some(ThroughputToPercent(read + write, caps.disk)),
              networkRx := Some(rx), networkTx := Some(tx), network := Some(ThroughputToPercent(rx + tx, caps.network)))
  }

  function ContainerUsage(row: Row, prev: Sample, cur: Sample, dt: real, caps: Caps): Row {
    if dt <= 0.0 || cur.cpuCount <= 0.0 || cur.memTotal <= 0.0 then row
    else
      var read, write := Rate(cur.diskReadBytes, prev.diskReadBytes, dt), Rate(cur.diskWriteBytes, prev.diskWriteBytes, dt);
      var rx, tx := Rate(cur.netRxBytes, prev.netRxBytes, dt), Rate(cur.netTxBytes, prev.netTxBytes, dt);
      row.(cpu := Some(ClampPercent(Rate(cur.cpuSeconds, prev.cpuSeconds, dt) / cur.cpuCount * 100.0)),
           memory := Some(ClampPercent((cur.memTotal - cur.memAvailable) / cur.memTotal * 100.0)),
           memoryTotal := Some(cur.memTotal.Floor), memoryFree := Some(cur.memAvailable.Floor),
           networkRx := Some(rx), networkTx := Some(tx), network := Some(ThroughputToPercent(rx + tx, caps.network)),
           ioRead := Some(read), ioWrite := Some(write), io := Some(ThroughputToPercent(read + write, caps.disk)))
  }

  function HostRow(s: State, i: Input, caps: Caps): Row {
    var row := EmptyRow(HOST_NAME, HOST_KIND, RUNNING);
    if Sampled(i) && s.host.Some? then HostUsage(row, s.host.value.sample, i.host.value, i.now - s.host.value.at, caps) else row
  }

  function Samples(i: Input): map<string, Sample> {
    if i.samples.Some? then i.samples.value else map[]
  }

  function ContainerRow(s: State, i: Input, c: ContainerInfo, caps: Caps): Row {
    var row := EmptyRow(c.name, CONTAINER_KIND, c.status);
    if c.name in Samples(i) && c.name in s.containers && EqualFold(c.status, RUNNING)
    then ContainerUsage(row, s.containers[c.name].sample, Samples(i)[c.name], i.now - s.containers[c.name].at, caps)
    else row
  }

  /** The rows for the first containers of the list; of two with the same name the later one counts. */
  function RowsFor(s: State, i: Input, list: seq<ContainerInfo>, caps: Caps): map<string, Row> {
    if |list| == 0 then map[HOST_NAME := HostRow(s, i, caps)]
    else
      var c := list[|list| - 1];
      RowsFor(s, i, list[..|list| - 1], caps)[c.name := ContainerRow(s, i, c, caps)]
  }

  function SamplesFor(i: Input, list: seq<ContainerInfo>): map<string, Timed<Sample>> {
    if |list| == 0 then map[]
    else
      var c := list[|list| - 1];
      var before := SamplesFor(i, list[..|list| - 1]);
      if c.name in Samples(i) then before[c.name := Timed(i.now, Samples(i)[c.name])] else before
  }

  function Polled(s: State, i: Input, caps: Caps): State {
    if i.containers.None? then s
    else
      State(if Sampled(i) then Some(Timed(i.now, i.host.value)) else s.host,
            SamplesFor(i, i.containers.value), RowsFor(s, i, i.containers.value, caps))
  }

  // ---------------------------------------------------------------- the host rates add up

  datatype Counter = DiskRead | DiskWrite | NetRx | NetTx

  function Count(h: HostSample, c: Counter): real {
    match c
    case DiskRead => h.diskRead
    case DiskWrite => h.diskWrite
    case NetRx => h.netRx
    case NetTx => h.netTx
  }

  function RateIn(row: Row, c: Counter): Option<real> {
    match c
    case DiskRead => row.ioRead
    case DiskWrite => row.ioWrite
    case NetRx => row.networkRx
    case NetTx => row.networkTx
  }

  /** The host row is the host's if and only if no container is called `host`. */
  lemma {:induction false} HostRowShown(s: State, i: Input, list: seq<ContainerInfo>, caps: Caps)
    ensures var rows := RowsFor(s, i, list, caps);
            HOST_NAME in rows && (rows[HOST_NAME] == HostRow(s, i, caps) <==> forall k :: 0 <= k < |list| ==> list[k].name != HOST_NAME)
  {
    if |list| > 0 {
      var less, last := list[..|list| - 1], list[|list| - 1];
      HostRowShown(s, i, less, caps);
      KindsDiffer(s, i, last, caps);
      hide ContainerRow, HostRow;
      if last.name != HOST_NAME {
        assert forall k :: 0 <= k < |less| ==> less[k] == list[k];
      }
    }
  }

  lemma KindsDiffer(s: State, i: Input, c: ContainerInfo, caps: Caps)
    ensures HostRow(s, i, caps) != ContainerRow(s, i, c, caps)
  {
    assert HostRow(s, i, caps).kind == HOST_KIND && ContainerRow(s, i, c, caps).kind == CONTAINER_KIND;
    assert |HOST_KIND| != |CONTAINER_KIND|;
  }

  /** The failing input: a container called `host`. */
  lemma HostRowTaken(s: State, i: Input, caps: Caps)
    ensures var rows := RowsFor(s, i, [ContainerInfo(HOST_NAME, RUNNING)], caps);
            HOST_NAME in rows && rows[HOST_NAME].kind == CONTAINER_KIND && rows[HOST_NAME] != HostRow(s, i, caps)
  {
    var list := [ContainerInfo(HOST_NAME, RUNNING)];
    HostRowShown(s, i, list, caps);
    assert list[..0] == [];
    assert list[0].name == HOST_NAME;
    assert RowsFor(s, i, list, caps) == RowsFor(s, i, [], caps)[HOST_NAME := ContainerRow(s, i, list[0], caps)];
  }

  predicate NoneCalledHost(i: Input) {
    i.containers.Some? ==> forall k :: 0 <= k < |i.containers.value| ==> i.containers.value[k].name != HOST_NAME
  }

  /** What a poll adds to the total: the rate it shows for the host, times the time since the last host sample. */
  function Shown(s: State, i: Input, caps: Caps, c: Counter): real {
    if i.containers.None? || s.host.None? then 0.0
    else
      var rows := Polled(s, i, caps).rows;
      if HOST_NAME !in rows || RateIn(rows[HOST_NAME], c).None? then 0.0
      else RateIn(rows[HOST_NAME], c).value * (i.now - s.host.value.at)
  }

  function After(s: State, inputs: seq<Input>, caps: Caps): State
    decreases |inputs|
  {
    if |inputs| == 0 then s else After(Polled(s, inputs[0], caps), inputs[1..], caps)
  }

  function TotalShown(s: State, inputs: seq<Input>, caps: Caps, c: Counter): real
    decreases |inputs|
  {
    if |inputs| == 0 then 0.0
    else Shown(s, inputs[0], caps, c) + TotalShown(Polled(s, inputs[0], caps), inputs[1..], caps, c)
  }

  /** The clock goes forward from one host sample to the next, and no container is called `host`. */
  ghost predicate Orderly(s: State, inputs: seq<Input>, caps: Caps)
    decreases |inputs|
  {
    |inputs| > 0 ==>
      && NoneCalledHost(inputs[0])
      && (Sampled(inputs[0]) && s.host.Some? ==> inputs[0].now > s.host.value.at)
      && Orderly(Polled(s, inputs[0], caps), inputs[1..], caps)
  }

  /** No host sample shows less than the one before. */
  ghost predicate NeverFalls(s: State, inputs: seq<Input>, caps: Caps, c: Counter)
    decreases |inputs|
  {
    |inputs| > 0 ==>
      && (Sampled(inputs[0]) && s.host.Some? ==> Count(inputs[0].host.value, c) >= Count(s.host.value.sample, c))
      && NeverFalls(Polled(s, inputs[0], caps), inputs[1..], caps, c)
  }

  /** The first host sample there is. */
  function FirstSample(host: Option<Timed<HostSample>>, inputs: seq<Input>): Option<HostSample> {
    if host.Some? then Some(host.value.sample)
    else if |inputs| == 0 then None
    else if Sampled(inputs[0]) then inputs[0].host
    else FirstSample(host, inputs[1..])
  }

  /** What one poll shows is what was counted since the last host sample. */
  lemma ShownIs(s: State, i: Input, caps: Caps, c: Counter)
    requires NoneCalledHost(i) && (Sampled(i) && s.host.Some? ==> i.now > s.host.value.at)
    ensures Shown(s, i, caps, c) ==
            if Sampled(i) && s.host.Some? then
              (if Count(i.host.value, c) < Count(s.host.value.sample, c) then 0.0 else Count(i.host.value, c) - Count(s.host.value.sample, c))
            else 0.0
  {
    hide RowsFor, SamplesFor, Rate, HostUsage;
    if i.containers.Some? {
      HostRowShown(s, i, i.containers.value, caps);
      if Sampled(i) && s.host.Some? {
        RateTimesTime(Count(i.host.value, c), Count(s.host.value.sample, c), i.now - s.host.value.at);
        HostUsageRate(EmptyRow(HOST_NAME, HOST_KIND, RUNNING), s.host.value.sample, i.host.value, i.now - s.host.value.at, caps, c);
      }
    }
  }

  lemma HostUsageRate(row: Row, prev: HostSample, cur: HostSample, dt: real, caps: Caps, c: Counter)
    requires dt > 0.0
    ensures RateIn(HostUsage(row, prev, cur, dt, caps), c) == Some(Rate(Count(cur, c), Count(prev, c), dt))
  {
    hide Rate, ThroughputToPercent, ClampPercent, RateToPercent;
  }

  /**
    Over any run of polls the host rates shown, each times the time it stands for, add up to the
    difference between the last and the first counter sampled, whatever failed in between, if
    and only if the counter never fell.  If it fell they add up to more.
    */
  lemma {:induction false} RatesAddUp(s: State, inputs: seq<Input>, caps: Caps, c: Counter)
    requires Orderly(s, inputs, caps)
    ensures var first, last := FirstSample(s.host, inputs), After(s, inputs, caps).host;
            && (first.Some? <==> last.Some?)
            && (first.None? ==> TotalShown(s, inputs, caps, c) == 0.0 && NeverFalls(s, inputs, caps, c))
            && (first.Some? ==>
                  var counted := Count(last.value.sample, c) - Count(first.value, c);
                  && TotalShown(s, inputs, caps, c) >= counted
                  && (TotalShown(s, inputs, caps, c) == counted <==> NeverFalls(s, inputs, caps, c)))
    decreases |inputs|
  {
    if |inputs| > 0 {
      ShownIs(s, inputs[0], caps, c);
      RatesAddUp(Polled(s, inputs[0], caps), inputs[1..], caps, c);
      hide RowsFor, SamplesFor, Shown;
    }
  }

  // ---------------------------------------------------------------- container rows

  predicate ShowsRates(row: Row) {
    row.cpu.Some? || row.ioRead.Some? || row.ioWrite.Some? || row.networkRx.Some? || row.networkTx.Some?
  }

  /** The samples kept are those of the containers that were listed. */
  lemma {:induction false} KeptSamples(i: Input, list: seq<ContainerInfo>, name: string)
    ensures name in SamplesFor(i, list) <==> name in Samples(i) && exists k :: 0 <= k < |list| && list[k].name == name
    ensures name in SamplesFor(i, list) ==> SamplesFor(i, list)[name] == Timed(i.now, Samples(i)[name])
  {
    if |list| > 0 {
      var less, last := list[..|list| - 1], list[|list| - 1];
      KeptSamples(i, less, name);
      if k :| 0 <= k < |less| && less[k].name == name {
        assert list[k] == less[k];
      }
      if k :| 0 <= k < |list| && list[k].name == name {
        assert k < |less| ==> less[k] == list[k];
      }
    }
  }

  lemma {:induction false} RowOfContainer(s: State, i: Input, list: seq<ContainerInfo>, caps: Caps, name: string)
    requires name in RowsFor(s, i, list, caps) && name != HOST_NAME
    ensures exists k :: 0 <= k < |list| && list[k].name == name && RowsFor(s, i, list, caps)[name] == ContainerRow(s, i, list[k], caps)
  {
    hide ContainerRow, HostRow;
    var less, last := list[..|list| - 1], list[|list| - 1];
    if last.name != name {
      RowOfContainer(s, i, less, caps, name);
      var k :| 0 <= k < |less| && less[k].name == name && RowsFor(s, i, less, caps)[name] == ContainerRow(s, i, less[k], caps);
      assert list[k] == less[k];
    }
  }

  /** Polls that find no container list change nothing. */
  lemma {:induction false} FailedPolls(s: State, inputs: seq<Input>, caps: Caps)
    requires forall k :: 0 <= k < |inputs| ==> inputs[k].containers.None?
    ensures After(s, inputs, caps) == s
    decreases |inputs|
  {
    if |inputs| > 0 {
      FailedPolls(s, inputs[1..], caps);
    }
  }

  /**
    A container row shows rates only if the container was listed and sampled both now and in the
    last poll that was completed; then they count from that poll on.
    */
  lemma RatesNeedTwoSamples(s: State, first: Input, failed: seq<Input>, i: Input, caps: Caps, name: string)
    requires first.containers.Some? && i.containers.Some? && name != HOST_NAME
    requires forall k :: 0 <= k < |failed| ==> failed[k].containers.None?
    ensures var before := After(Polled(s, first, caps), failed, caps);
            var rows := Polled(before, i, caps).rows;
            name in rows && ShowsRates(rows[name]) ==>
              && name in Samples(first) && name in Samples(i)
              && (exists k :: 0 <= k < |first.containers.value| && first.containers.value[k].name == name)
              && i.now > first.now
              && rows[name].networkRx == Some(Rate(Samples(i)[name].netRxBytes, Samples(first)[name].netRxBytes, i.now - first.now))
              && rows[name].networkTx == Some(Rate(Samples(i)[name].netTxBytes, Samples(first)[name].netTxBytes, i.now - first.now))
              && rows[name].ioRead == Some(Rate(Samples(i)[name].diskReadBytes, Samples(first)[name].diskReadBytes, i.now - first.now))
              && rows[name].ioWrite == Some(Rate(Samples(i)[name].diskWriteBytes, Samples(first)[name].diskWriteBytes, i.now - first.now))
  {
    var done := Polled(s, first, caps);
    FailedPolls(done, failed, caps);
    KeptSamples(first, first.containers.value, name);
    var rows := Polled(done, i, caps).rows;
    if name in rows && ShowsRates(rows[name]) {
      RowOfContainer(done, i, i.containers.value, caps, name);
      hide RowsFor, SamplesFor, After, Rate, ClampPercent, ThroughputToPercent, EqualFold;
    }
  }

  /** Rates are never negative and percentages stay between 0 and 100. */
  ghost predicate InRange(row: Row) {
    && (forall p :: p in [row.cpu, row.memory, row.io, row.network] && p.Some? ==> 0.0 <= p.value <= 100.0)
    && (forall r :: r in [row.ioRead, row.ioWrite, row.networkRx, row.networkTx] && r.Some? ==> r.value >= 0.0)
  }

  lemma RateNotNegative(cur: real, prev: real, dt: real)
    ensures Rate(cur, prev, dt) >= 0.0
  {
  }

  lemma UsageInRange(row: Row, hostPrev: HostSample, host: HostSample, prev: Sample, cur: Sample, dt: real, caps: Caps)
    requires InRange(row)
    ensures InRange(HostUsage(row, hostPrev, host, dt, caps)) && InRange(ContainerUsage(row, prev, cur, dt, caps))
  {
    RateNotNegative(host.diskRead, hostPrev.diskRead, dt);
    RateNotNegative(host.diskWrite, hostPrev.diskWrite, dt);
    RateNotNegative(host.netRx, hostPrev.netRx, dt);
    RateNotNegative(host.netTx, hostPrev.netTx, dt);
    hide Rate;
    ContainerInRange(row, prev, cur, dt, caps);
    hide ContainerUsage;
  }

  lemma ContainerInRange(row: Row, prev: Sample, cur: Sample, dt: real, caps: Caps)
    requires InRange(row)
    ensures InRange(ContainerUsage(row, prev, cur, dt, caps))
  {
    RateNotNegative(cur.diskReadBytes, prev.diskReadBytes, dt);
    RateNotNegative(cur.diskWriteBytes, prev.diskWriteBytes, dt);
    RateNotNegative(cur.netRxBytes, prev.netRxBytes, dt);
    RateNotNegative(cur.netTxBytes, prev.netTxBytes, dt);
    hide Rate;
  }

  lemma RowsInRange(s: State, i: Input, caps: Caps, name: string)
    requires i.containers.Some? && name in Polled(s, i, caps).rows
    ensures InRange(Polled(s, i, caps).rows[name])
  {
    var list := i.containers.value;
    HostRowShown(s, i, list, caps);
    assert InRange(HostRow(s, i, caps)) by {
      if Sampled(i) && s.host.Some? {
        UsageInRange(EmptyRow(HOST_NAME, HOST_KIND, RUNNING), s.host.value.sample, i.host.value, NO_SAMPLE, NO_SAMPLE, i.now - s.host.value.at, caps);
      }
    }
    if k :| 0 <= k < |list| && RowsFor(s, i, list, caps)[name] == ContainerRow(s, i, list[k], caps) {
      ContainerRowInRange(s, i, list[k], caps);
    } else {
      RowsAreRows(s, i, list, caps, name);
    }
  }

  lemma ContainerRowInRange(s: State, i: Input, c: ContainerInfo, caps: Caps)
    ensures InRange(ContainerRow(s, i, c, caps))
  {
    if c.name in Samples(i) && c.name in s.containers {
      UsageInRange(EmptyRow(c.name, CONTAINER_KIND, c.status), ZERO_HOST, ZERO_HOST, s.containers[c.name].sample, Samples(i)[c.name],
                   i.now - s.containers[c.name].at, caps);
    }
    hide HostUsage, ContainerUsage;
  }

  lemma {:induction false} RowsAreRows(s: State, i: Input, list: seq<ContainerInfo>, caps: Caps, name: string)
    requires name in RowsFor(s, i, list, caps)
    ensures var row := RowsFor(s, i, list, caps)[name];
            row == HostRow(s, i, caps) || exists k :: 0 <= k < |list| && row == ContainerRow(s, i, list[k], caps)
  {
    hide ContainerRow, HostRow;
    if |list| > 0 && list[|list| - 1].name != name {
      var less := list[..|list| - 1];
      RowsAreRows(s, i, less, caps, name);
      if k :| 0 <= k < |less| && RowsFor(s, i, less, caps)[name] == ContainerRow(s, i, less[k], caps) {
        assert list[k] == less[k];
      }
    }
  }
}
