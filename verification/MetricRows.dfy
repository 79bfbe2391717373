/**
  What the rows of the monitoring table show: when a row shows usage at all, and every value in it,
  as shares of what there is and as counts over the time between two polls.
  */
module MetricRows {
  import opened Common
  import opened Text
  import opened Metrics

  /** `v` is the share that `part` is of `whole`, in percent, and never outside of 0 to 100. */
  ghost predicate IsShare(v: real, part: real, whole: real) {
    && (part <= 0.0 ==> v == 0.0)
    && (0.0 <= part <= whole ==> v * whole == part * 100.0)
    && (part >= whole ==> v == 100.0)
  }

  /** What a counter has counted; a counter that fell has started anew. */
  function Counted(cur: real, prev: real): real {
    if cur < prev then 0.0 else cur - prev
  }

  lemma ClampIsShare(part: real, whole: real)
    requires whole > 0.0
    ensures IsShare(ClampPercent(part / whole * 100.0), part, whole)
  {
    var q := part / whole;
    assert q * whole == part;
    if part <= 0.0 {
      assert q <= 0.0 by {
        if q > 0.0 {
          Product(q, whole);
        }
      }
    }
    if part >= whole {
      assert q >= 1.0 by {
        if q < 1.0 {
          Product(1.0 - q, whole);
        }
      }
    }
    if 0.0 <= part <= whole {
      assert 0.0 <= q by {
        if q < 0.0 {
          Product(-q, whole);
        }
      }
      assert q <= 1.0 by {
        if q > 1.0 {
          Product(q - 1.0, whole);
        }
      }
      assert (q * 100.0) * whole == (q * whole) * 100.0;
    }
  }

  lemma Product(a: real, b: real)
    requires a > 0.0 && b > 0.0
    ensures a * b > 0.0
  {
  }

  /** The share of a rate in a ceiling is the share of what was counted in what could have been. */
  lemma ShareOverTime(v: real, part: real, whole: real, dt: real)
    requires IsShare(v, part, whole) && whole > 0.0 && dt > 0.0
    ensures IsShare(v, part * dt, whole * dt)
  {
    assert part <= 0.0 <==> part * dt <= 0.0 by {
      if part > 0.0 {
        Product(part, dt);
      } else if part < 0.0 {
        Product(-part, dt);
      }
    }
    assert part <= whole <==> part * dt <= whole * dt by {
      if part > whole {
        Product(part - whole, dt);
      } else if part < whole {
        Product(whole - part, dt);
      }
    }
    assert part >= whole <==> part * dt >= whole * dt by {
      if part < whole {
        Product(whole - part, dt);
      } else if part > whole {
        Product(part - whole, dt);
      }
    }
    assert v * (whole * dt) == (v * whole) * dt;
  }

  lemma RateShare(percent: real, cur: real, prev: real, whole: real, dt: real)
    requires whole > 0.0 && dt > 0.0 && percent == ClampPercent(Rate(cur, prev, dt) / whole * 100.0)
    ensures IsShare(percent, Counted(cur, prev), whole * dt)
  {
    RateTimesTime(cur, prev, dt);
    var r := Rate(cur, prev, dt);
    ClampIsShare(r, whole);
    ShareOverTime(ClampPercent(r / whole * 100.0), r, whole, dt);
    hide Rate, ClampPercent;
  }

  lemma ThroughputShares(a: real, b: real, a0: real, b0: real, cap: real, dt: real)
    requires cap > 0.0 && dt > 0.0
    ensures IsShare(ThroughputToPercent(Rate(a, a0, dt) + Rate(b, b0, dt), cap), Counted(a, a0) + Counted(b, b0), cap * dt)
  {
    RateTimesTime(a, a0, dt);
    RateTimesTime(b, b0, dt);
    var sum := Rate(a, a0, dt) + Rate(b, b0, dt);
    ClampIsShare(sum, cap);
    hide Rate, ClampPercent, IsShare;
    ShareOverTime(ClampPercent(sum / cap * 100.0), sum, cap, dt);
    assert sum * dt == Rate(a, a0, dt) * dt + Rate(b, b0, dt) * dt;
  }

  // ---------------------------------------------------------------- the values of a row

  /** Both throughputs of a row: each rate times the time is what was counted, and the share is that of both in the ceiling. */
  ghost predicate ShowsThroughput(share: Option<real>, first: Option<real>, second: Option<real>, counted1: real, counted2: real, cap: real, dt: real) {
    && share.Some? && first.Some? && second.Some?
    && first.value * dt == counted1 && second.value * dt == counted2
    && IsShare(share.value, counted1 + counted2, cap * dt)
  }

  ghost predicate ShowsMemory(row: Row, total: real, available: real) {
    && row.memory.Some? && IsShare(row.memory.value, total - available, total)
    && row.memoryTotal == Some(total.Floor) && row.memoryFree == Some(available.Floor)
  }

  ghost predicate ShowsContainer(row: Row, prev: Sample, cur: Sample, dt: real, caps: Caps) {
    && row.cpu.Some? && IsShare(row.cpu.value, Counted(cur.cpuSeconds, prev.cpuSeconds), cur.cpuCount * dt)
    && ShowsMemory(row, cur.memTotal, cur.memAvailable)
    && ShowsThroughput(row.io, row.ioRead, row.ioWrite, Counted(cur.diskReadBytes, prev.diskReadBytes),
                       Counted(cur.diskWriteBytes, prev.diskWriteBytes), caps.disk, dt)
    && ShowsThroughput(row.network, row.networkRx, row.networkTx, Counted(cur.netRxBytes, prev.netRxBytes),
                       Counted(cur.netTxBytes, prev.netTxBytes), caps.network, dt)
  }

  /** The processor's share is known only when its time went on, and the memory only when there is some. */
  ghost predicate ShowsHost(row: Row, prev: HostSample, cur: HostSample, dt: real, caps: Caps) {
    && (if cur.cpuTotal <= prev.cpuTotal then row.cpu == None
        else row.cpu.Some? && IsShare(row.cpu.value, (cur.cpuTotal - prev.cpuTotal) - (cur.cpuIdle - prev.cpuIdle), cur.cpuTotal - prev.cpuTotal))
    && (if cur.memTotal <= 0.0 then row.memory == None && row.memoryTotal == None && row.memoryFree == None
        else ShowsMemory(row, cur.memTotal, cur.memAvail))
    && ShowsThroughput(row.io, row.ioRead, row.ioWrite, Counted(cur.diskRead, prev.diskRead), Counted(cur.diskWrite, prev.diskWrite), caps.disk, dt)
    && ShowsThroughput(row.network, row.networkRx, row.networkTx, Counted(cur.netRx, prev.netRx), Counted(cur.netTx, prev.netTx), caps.network, dt)
  }

  lemma ThroughputShown(a: real, b: real, a0: real, b0: real, cap: real, dt: real)
    requires cap > 0.0 && dt > 0.0
    ensures var x, y := Rate(a, a0, dt), Rate(b, b0, dt);
            ShowsThroughput(Some(ThroughputToPercent(x + y, cap)), Some(x), Some(y), Counted(a, a0), Counted(b, b0), cap, dt)
  {
    RateTimesTime(a, a0, dt);
    RateTimesTime(b, b0, dt);
    ThroughputShares(a, b, a0, b0, cap, dt);
    hide Rate, ThroughputToPercent, IsShare;
  }

  lemma ContainerUsageMeaning(row: Row, prev: Sample, cur: Sample, dt: real, caps: Caps)
    requires caps.disk > 0.0 && caps.network > 0.0
    ensures var r := ContainerUsage(row, prev, cur, dt, caps);
            && r.name == row.name && r.kind == row.kind && r.status == row.status
            && if dt > 0.0 && cur.cpuCount > 0.0 && cur.memTotal > 0.0 then ShowsContainer(r, prev, cur, dt, caps) else r == row
  {
    hide Rate, ClampPercent, ThroughputToPercent, ShowsThroughput, Counted;
    if dt > 0.0 && cur.cpuCount > 0.0 && cur.memTotal > 0.0 {
      RateShare(ContainerUsage(row, prev, cur, dt, caps).cpu.value, cur.cpuSeconds, prev.cpuSeconds, cur.cpuCount, dt);
      ClampIsShare(cur.memTotal - cur.memAvailable, cur.memTotal);
      ThroughputShown(cur.diskReadBytes, cur.diskWriteBytes, prev.diskReadBytes, prev.diskWriteBytes, caps.disk, dt);
      ThroughputShown(cur.netRxBytes, cur.netTxBytes, prev.netRxBytes, prev.netTxBytes, caps.network, dt);
    }
  }

  lemma HostUsageMeaning(row: Row, prev: HostSample, cur: HostSample, dt: real, caps: Caps)
    requires caps.disk > 0.0 && caps.network > 0.0 && row == EmptyRow(row.name, row.kind, row.status)
    ensures var r := HostUsage(row, prev, cur, dt, caps);
            && r.name == row.name && r.kind == row.kind && r.status == row.status
            && if dt > 0.0 then ShowsHost(r, prev, cur, dt, caps) else r == row
  {
    hide Rate, ClampPercent, ThroughputToPercent, IsShare, ShowsThroughput;
    if dt > 0.0 {
      if cur.cpuTotal > prev.cpuTotal {
        var delta := cur.cpuTotal - prev.cpuTotal;
        ClampIsShare(delta - (cur.cpuIdle - prev.cpuIdle), delta);
      }
      if cur.memTotal > 0.0 {
        ClampIsShare(cur.memTotal - cur.memAvail, cur.memTotal);
      }
      ThroughputShown(cur.diskRead, cur.diskWrite, prev.diskRead, prev.diskWrite, caps.disk, dt);
      ThroughputShown(cur.netRx, cur.netTx, prev.netRx, prev.netTx, caps.network, dt);
      hide Counted;
    }
  }

  // ---------------------------------------------------------------- when a row shows usage

  /** The last entry of the list under its name. */
  ghost predicate LastNamed(list: seq<ContainerInfo>, k: nat) {
    k < |list| && forall j :: k < j < |list| ==> list[j].name != list[k].name
  }

  predicate Listed(list: seq<ContainerInfo>, name: string) {
    exists k :: 0 <= k < |list| && list[k].name == name
  }

  /** Of several entries with one name the last one makes the row. */
  lemma {:induction false} RowOfLast(s: State, i: Input, list: seq<ContainerInfo>, caps: Caps, k: nat)
    requires LastNamed(list, k)
    ensures var rows := RowsFor(s, i, list, caps); list[k].name in rows && rows[list[k].name] == ContainerRow(s, i, list[k], caps)
    decreases |list|
  {
    hide ContainerRow, HostRow;
    var n := |list| - 1;
    if k < n {
      RowOfLast(s, i, list[..n], caps, k);
    }
  }

  /** There is a row for the host and for every container that is listed, and no other. */
  lemma {:induction false} RowsListed(s: State, i: Input, list: seq<ContainerInfo>, caps: Caps, name: string)
    ensures name in RowsFor(s, i, list, caps) <==> name == "host" || Listed(list, name)
    decreases |list|
  {
    hide ContainerRow, HostRow;
    if |list| > 0 {
      var n := |list| - 1;
      var less := list[..n];
      RowsListed(s, i, less, caps, name);
      assert Listed(list, name) <==> Listed(less, name) || list[n].name == name by {
        if k :| 0 <= k < |less| && less[k].name == name {
          assert list[k].name == name;
        }
        if k :| 0 <= k < |list| && list[k].name == name {
          assert k < n ==> less[k].name == name;
        }
      }
    }
  }

  /** What the row of a container has to show, from the samples kept of the last poll and those of this one. */
  ghost predicate RowOk(row: Row, c: ContainerInfo, kept: map<string, Timed<Sample>>, i: Input, caps: Caps) {
    if EqualFold(c.status, "Running") && c.name in kept && c.name in Samples(i)
       && i.now > kept[c.name].at && Samples(i)[c.name].cpuCount > 0.0 && Samples(i)[c.name].memTotal > 0.0
    then row.name == c.name && row.kind == "Container" && row.status == c.status
         && ShowsContainer(row, kept[c.name].sample, Samples(i)[c.name], i.now - kept[c.name].at, caps)
    else row == EmptyRow(c.name, "Container", c.status)
  }

  lemma ContainerRowOk(s: State, i: Input, caps: Caps, k: nat)
    requires caps.disk > 0.0 && caps.network > 0.0 && i.containers.Some? && LastNamed(i.containers.value, k)
    ensures var c, rows := i.containers.value[k], Polled(s, i, caps).rows;
            c.name in rows && RowOk(rows[c.name], c, s.containers, i, caps)
  {
    hide ContainerUsage, EqualFold, ShowsContainer, RowsFor, SamplesFor;
    var c := i.containers.value[k];
    RowOfLast(s, i, i.containers.value, caps, k);
    if c.name in s.containers && c.name in Samples(i) {
      ContainerUsageMeaning(EmptyRow(c.name, CONTAINER_KIND, c.status), s.containers[c.name].sample, Samples(i)[c.name],
                            i.now - s.containers[c.name].at, caps);
    }
  }

  /**
    Two polls, with any number of failed ones between them.  The row of a container shows usage if
    and only if the container is running, was listed and sampled both times, time has passed, and it
    has processors and memory; and then every value is what was counted between the two polls.
    */
  lemma {:induction false} ContainerRowExactly(s: State, first: Input, failed: seq<Input>, i: Input, caps: Caps, k: nat)
    requires caps.disk > 0.0 && caps.network > 0.0 && first.containers.Some? && i.containers.Some?
    requires forall j :: 0 <= j < |failed| ==> failed[j].containers.None?
    requires LastNamed(i.containers.value, k)
    ensures var c := i.containers.value[k];
            var rows := Polled(After(Polled(s, first, caps), failed, caps), i, caps).rows;
            var dt := i.now - first.now;
            && c.name in rows
            && var row := rows[c.name];
               if EqualFold(c.status, "Running") && Listed(first.containers.value, c.name) && c.name in Samples(first) && c.name in Samples(i)
                  && dt > 0.0 && Samples(i)[c.name].cpuCount > 0.0 && Samples(i)[c.name].memTotal > 0.0
               then row.name == c.name && row.kind == "Container" && row.status == c.status
                    && ShowsContainer(row, Samples(first)[c.name], Samples(i)[c.name], dt, caps)
               else row == EmptyRow(c.name, "Container", c.status)
  {
    hide EqualFold, ShowsContainer, RowsFor, SamplesFor, After;
    var before := Polled(s, first, caps);
    FailedPolls(before, failed, caps);
    ContainerRowOk(before, i, caps, k);
    KeptSamples(first, first.containers.value, i.containers.value[k].name);
  }

  /** A sample in which nothing was read. */
  predicate AllZero(h: HostSample) {
    && h.cpuTotal == 0.0 && h.cpuIdle == 0.0 && h.memTotal == 0.0 && h.memAvail == 0.0
    && h.diskRead == 0.0 && h.diskWrite == 0.0 && h.netRx == 0.0 && h.netTx == 0.0
  }

  /** What the row of the host has to show, from the last sample of the host and the one of this poll. */
  ghost predicate HostRowOk(row: Row, last: Option<Timed<HostSample>>, i: Input, caps: Caps) {
    if last.Some? && i.host.Some? && !AllZero(i.host.value) && i.now > last.value.at
    then row.name == "host" && row.kind == "Host" && row.status == "Running"
         && ShowsHost(row, last.value.sample, i.host.value, i.now - last.value.at, caps)
    else row == EmptyRow("host", "Host", "Running")
  }

  /** The host's row shows usage if and only if the host was sampled before and now, and time has passed. */
  lemma HostRowExactly(s: State, i: Input, caps: Caps)
    requires caps.disk > 0.0 && caps.network > 0.0 && i.containers.Some? && NoneCalledHost(i)
    ensures var rows := Polled(s, i, caps).rows;
            "host" in rows && HostRowOk(rows["host"], s.host, i, caps)
  {
    hide HostUsage, ShowsHost, RowsFor, SamplesFor;
    HostRowShown(s, i, i.containers.value, caps);
    if s.host.Some? && i.host.Some? {
      HostUsageMeaning(EmptyRow(HOST_NAME, HOST_KIND, RUNNING), s.host.value.sample, i.host.value, i.now - s.host.value.at, caps);
    }
  }
}
