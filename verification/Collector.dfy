/** The collector: what it keeps from poll to poll, and the table it shows. */
module Collector {
  import opened Common
  import opened Text
  import opened Metrics
  import opened MetricRows

  class Collector {
    const diskCap: real
    const netCap: real
    var container: map<string, Timed<Sample>>
    var hostPrev: Timed<HostSample>
    var hasHost: bool
    var rows: map<string, Row>

    ghost function Current(): State
      reads this
    {
      State(if hasHost then Some(hostPrev) else None, container, rows)
    }

    ghost predicate Valid() {
      diskCap > 0.0 && netCap > 0.0
    }

    constructor (diskCap: real, netCap: real)
      ensures Current() == State(None, map[], map[])
      ensures Valid()
      ensures this.diskCap == diskCap || (diskCap <= 0.0 && this.diskCap == 100.0 * 1024.0 * 1024.0)
      ensures this.netCap == netCap || (netCap <= 0.0 && this.netCap == 100.0 * 1024.0 * 1024.0)
    {
      this.diskCap := if diskCap <= 0.0 then 104857600.0 else diskCap;
      this.netCap := if netCap <= 0.0 then 104857600.0 else netCap;
      container, rows, hasHost := map[], map[], false;
      hostPrev := Timed(0.0, ZERO_HOST);
    }

    /** The part of a poll that is about the host. */
    method PollHost(i: Input) returns (row: Row)
      requires i.containers.Some?
      modifies this`hostPrev, this`hasHost
      ensures Current().host == Polled(old(Current()), i, Caps(diskCap, netCap)).host
      ensures row == HostRow(old(Current()), i, Caps(diskCap, netCap))
    {
      hide HostUsage;
      row := EmptyRow(HOST_NAME, HOST_KIND, RUNNING);
      if i.host.Some? && i.host.value != ZERO_HOST {
        var prev := hostPrev;
        hostPrev := Timed(i.now, i.host.value);
        if hasHost {
          row := HostUsage(row, prev.sample, i.host.value, i.now - prev.at, Caps(diskCap, netCap));
        } else {
          hasHost := true;
        }
      }
    }

    /** A poll that finds no list keeps everything; any other makes a row for every container, and one for the host. */
    method Poll(i: Input)
      requires Valid()
      modifies this
      ensures Current() == Polled(old(Current()), i, Caps(diskCap, netCap))
      ensures i.containers.None? ==> Current() == old(Current())
      ensures i.containers.Some? ==> forall name :: name in rows <==> name == HOST_NAME || Listed(i.containers.value, name)
      ensures i.containers.Some? ==> forall k: nat :: LastNamed(i.containers.value, k) ==>
                var c := i.containers.value[k];
                c.name in rows && RowOk(rows[c.name], c, old(container), i, Caps(diskCap, netCap))
      ensures i.containers.Some? && NoneCalledHost(i) ==>
                HOST_NAME in rows && HostRowOk(rows[HOST_NAME], old(Current()).host, i, Caps(diskCap, netCap))
    {
      if i.containers.None? {
        return;
      }
      hide HostUsage, ContainerUsage, EqualFold;
      ghost var before, caps := Current(), Caps(diskCap, netCap);
      var list := i.containers.value;
      var hostRow := PollHost(i);
      var nextRows := map[HOST_NAME := hostRow];
      var samples := if i.samples.Some? then i.samples.value else map[];
      var nextSamples: map<string, Timed<Sample>> := map[];
      for k := 0 to |list|
        invariant nextRows == RowsFor(before, i, list[..k], caps) && nextSamples == SamplesFor(i, list[..k])
        invariant container == before.containers && Current().host == Polled(before, i, caps).host
      {
        assert list[..k + 1][..k] == list[..k];
        var c := list[k];
        var row := EmptyRow(c.name, CONTAINER_KIND, c.status);
        if c.name in samples {
          if c.name in container && EqualFold(c.status, RUNNING) {
            row := ContainerUsage(row, container[c.name].sample, samples[c.name], i.now - container[c.name].at, Caps(diskCap, netCap));
          }
          nextSamples := nextSamples[c.name := Timed(i.now, samples[c.name])];
        }
        nextRows := nextRows[c.name := row];
      }
      assert list[..|list|] == list;
      rows := nextRows;
      container := nextSamples;
      hide RowsFor, SamplesFor, RowOk, HostRowOk, Listed;
      forall name ensures name in rows <==> name == HOST_NAME || Listed(list, name) {
        RowsListed(before, i, list, caps, name);
      }
      forall k: nat | LastNamed(list, k) ensures list[k].name in rows && RowOk(rows[list[k].name], list[k], before.containers, i, caps) {
        ContainerRowOk(before, i, caps, k);
      }
      if NoneCalledHost(i) {
        HostRowExactly(before, i, caps);
      }
    }
  }
}
