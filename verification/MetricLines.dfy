/** The metrics of all containers, collected from lines that have been split into their parts. */
module MetricLines {
  import opened Common
  import opened Metrics

  /** A label that is missing is empty; a value that is no number is missing. */
  datatype Line = Line(metric: string, kind: string, name: string, device: string, value: Option<real>)

  predicate Accepted(l: Line) {
    l.kind == "container" && l.name != "" && l.value.Some?
  }

  /** The part of a sample a line is about; nothing for the loopback device and for metrics that are not used. */
  datatype Field = CpuSeconds | CpuCount | MemTotal | MemAvailable | NetReceived | NetSent | BytesRead | BytesWritten | Nothing

  function FieldOf(l: Line): Field {
    if l.metric == "lxd_cpu_seconds_total" then CpuSeconds
    else if l.metric == "lxd_cpu_effective_total" then CpuCount
    else if l.metric == "lxd_memory_MemTotal_bytes" then MemTotal
    else if l.metric == "lxd_memory_MemAvailable_bytes" then MemAvailable
    else if l.metric == "lxd_network_receive_bytes_total" then (if l.device == "lo" then Nothing else NetReceived)
    else if l.metric == "lxd_network_transmit_bytes_total" then (if l.device == "lo" then Nothing else NetSent)
    else if l.metric == "lxd_disk_read_bytes_total" then BytesRead
    else if l.metric == "lxd_disk_write_bytes_total" || l.metric == "lxd_disk_written_bytes_total" then BytesWritten
    else Nothing
  }

  predicate IsCounter(f: Field) {
    f in {CpuSeconds, NetReceived, NetSent, BytesRead, BytesWritten}
  }

  function Value(s: Sample, f: Field): real {
    match f
    case CpuSeconds => s.cpuSeconds
    case CpuCount => s.cpuCount
    case MemTotal => s.memTotal
    case MemAvailable => s.memAvailable
    case NetReceived => s.netRxBytes
    case NetSent => s.netTxBytes
    case BytesRead => s.diskReadBytes
    case BytesWritten => s.diskWriteBytes
    case Nothing => 0.0
  }

  /** One line added to the sample of its container. */
  function Applied(s: Sample, l: Line): Sample
    requires l.value.Some?
  {
    var v := l.value.value;
    match FieldOf(l)
    case CpuSeconds => s.(cpuSeconds := s.cpuSeconds + v)
    case CpuCount => s.(cpuCount := v)
    case MemTotal => s.(memTotal := v)
    case MemAvailable => s.(memAvailable := v)
    case NetReceived => s.(netRxBytes := s.netRxBytes + v)
    case NetSent => s.(netTxBytes := s.netTxBytes + v)
    case BytesRead => s.(diskReadBytes := s.diskReadBytes + v)
    case BytesWritten => s.(diskWriteBytes := s.diskWriteBytes + v)
    case Nothing => s
  }

  function Parsed(lines: seq<Line>): map<string, Sample> {
    if |lines| == 0 then map[]
    else
      var before, l := Parsed(lines[..|lines| - 1]), lines[|lines| - 1];
      if Accepted(l) then before[l.name := Applied(if l.name in before then before[l.name] else NO_SAMPLE, l)] else before
  }

  method ParseMetrics(lines: seq<Line>) returns (out: map<string, Sample>)
    ensures out == Parsed(lines)
  {
    out := map[];
    for i := 0 to |lines|
      invariant out == Parsed(lines[..i])
    {
      assert lines[..i + 1][..i] == lines[..i];
      var l := lines[i];
      if l.kind != "container" || l.name == "" || l.value.None? {
        continue;
      }
      var v := l.value.value;
      var sample := if l.name in out then out[l.name] else NO_SAMPLE;
      match l.metric {
        case "lxd_cpu_seconds_total" => sample := sample.(cpuSeconds := sample.cpuSeconds + v);
        case "lxd_cpu_effective_total" => sample := sample.(cpuCount := v);
        case "lxd_memory_MemTotal_bytes" => sample := sample.(memTotal := v);
        case "lxd_memory_MemAvailable_bytes" => sample := sample.(memAvailable := v);
        case "lxd_network_receive_bytes_total" =>
          if l.device != "lo" {
            sample := sample.(netRxBytes := sample.netRxBytes + v);
          }
        case "lxd_network_transmit_bytes_total" =>
          if l.device != "lo" {
            sample := sample.(netTxBytes := sample.netTxBytes + v);
          }
        case "lxd_disk_read_bytes_total" => sample := sample.(diskReadBytes := sample.diskReadBytes + v);
        case "lxd_disk_write_bytes_total" => sample := sample.(diskWriteBytes := sample.diskWriteBytes + v);
        case "lxd_disk_written_bytes_total" => sample := sample.(diskWriteBytes := sample.diskWriteBytes + v);
        case _ =>
      }
      out := out[l.name := sample];
    }
    assert lines[..|lines|] == lines;
  }

  // ---------------------------------------------------------------- each container by its own lines

  predicate Own(l: Line, name: string) {
    Accepted(l) && l.name == name
  }

  function OwnLines(lines: seq<Line>, name: string): seq<Line> {
    if |lines| == 0 then []
    else OwnLines(lines[..|lines| - 1], name) + if Own(lines[|lines| - 1], name) then [lines[|lines| - 1]] else []
  }

  lemma {:induction false} OwnLinesAreOwn(lines: seq<Line>, name: string)
    ensures forall k :: 0 <= k < |OwnLines(lines, name)| ==> Own(OwnLines(lines, name)[k], name) && OwnLines(lines, name)[k] in lines
    ensures OwnLines(lines, name) != [] <==> exists l :: l in lines && Own(l, name)
  {
    if |lines| > 0 {
      var less, last := lines[..|lines| - 1], lines[|lines| - 1];
      OwnLinesAreOwn(less, name);
      assert lines == less + [last];
    }
  }

  /** A container has the sample that its own lines alone would give it, and none without such lines. */
  lemma {:induction false} OwnLinesDecide(lines: seq<Line>, name: string)
    ensures name in Parsed(lines) <==> OwnLines(lines, name) != []
    ensures name in Parsed(lines) <==> name in Parsed(OwnLines(lines, name))
    ensures name in Parsed(lines) ==> Parsed(lines)[name] == Parsed(OwnLines(lines, name))[name]
  {
    if |lines| > 0 {
      var less, last := lines[..|lines| - 1], lines[|lines| - 1];
      OwnLinesDecide(less, name);
      var own := OwnLines(lines, name);
      if Own(last, name) {
        assert own[..|own| - 1] == OwnLines(less, name) && own[|own| - 1] == last;
      } else {
        assert own == OwnLines(less, name);
      }
    }
  }

  /** The sum of the values of the lines about `f`; all containers if `name` is empty. */
  function Total(lines: seq<Line>, f: Field, name: string): real {
    if |lines| == 0 then 0.0
    else
      var l := lines[|lines| - 1];
      Total(lines[..|lines| - 1], f, name) + if Accepted(l) && FieldOf(l) == f && (name == "" || l.name == name) then l.value.value else 0.0
  }

  /** The value of the last line about `f`. */
  function Last(lines: seq<Line>, f: Field, name: string): real {
    if |lines| == 0 then 0.0
    else
      var l := lines[|lines| - 1];
      if Own(l, name) && FieldOf(l) == f then l.value.value else Last(lines[..|lines| - 1], f, name)
  }

  lemma AppliedValue(s: Sample, l: Line, f: Field)
    requires l.value.Some? && f != Nothing
    ensures Value(Applied(s, l), f) ==
            if FieldOf(l) != f then Value(s, f) else if IsCounter(f) then Value(s, f) + l.value.value else l.value.value
  {
    hide FieldOf;
  }

  function SampleOf(out: map<string, Sample>, name: string): Sample {
    if name in out then out[name] else NO_SAMPLE
  }

  /** Counters are sums and gauges are last values, over the container's own lines. */
  lemma {:induction false} SampleMeaning(lines: seq<Line>, name: string, f: Field)
    requires name != "" && f != Nothing
    ensures Value(SampleOf(Parsed(lines), name), f) == if IsCounter(f) then Total(lines, f, name) else Last(lines, f, name)
  {
    hide FieldOf, Applied;
    if |lines| > 0 {
      var less, last := lines[..|lines| - 1], lines[|lines| - 1];
      SampleMeaning(less, name, f);
      if Own(last, name) {
        AppliedValue(SampleOf(Parsed(less), name), last, f);
      }
    }
  }

  // ---------------------------------------------------------------- all containers together

  function SumOver(out: map<string, Sample>, names: seq<string>, f: Field): real {
    if |names| == 0 then 0.0 else SumOver(out, names[..|names| - 1], f) + Value(SampleOf(out, names[|names| - 1]), f)
  }

  lemma {:induction false} SumUnchanged(before: map<string, Sample>, after: map<string, Sample>, names: seq<string>, f: Field)
    requires forall k :: 0 <= k < |names| ==> Value(SampleOf(after, names[k]), f) == Value(SampleOf(before, names[k]), f)
    ensures SumOver(after, names, f) == SumOver(before, names, f)
  {
    if |names| > 0 {
      SumUnchanged(before, after, names[..|names| - 1], f);
    }
  }

  /** Adding to one of the containers adds as much to the sum. */
  lemma {:induction false} SumChanged(before: map<string, Sample>, after: map<string, Sample>, names: seq<string>, f: Field, at: nat, v: real)
    requires at < |names| && Distinct(names)
    requires Value(SampleOf(after, names[at]), f) == Value(SampleOf(before, names[at]), f) + v
    requires forall k :: 0 <= k < |names| && k != at ==> Value(SampleOf(after, names[k]), f) == Value(SampleOf(before, names[k]), f)
    ensures SumOver(after, names, f) == SumOver(before, names, f) + v
  {
    var less := names[..|names| - 1];
    if at == |names| - 1 {
      SumUnchanged(before, after, less, f);
    } else {
      SumChanged(before, after, less, f, at, v);
    }
  }

  /** Summed over any list of all containers, a counter is the total of all accepted lines about it. */
  lemma {:induction false} NothingIsLost(lines: seq<Line>, names: seq<string>, f: Field)
    requires IsCounter(f) && Distinct(names)
    requires forall l :: l in lines && Accepted(l) ==> l.name in names
    ensures SumOver(Parsed(lines), names, f) == Total(lines, f, "")
  {
    if |lines| == 0 {
      SumOfNone(names, f);
    } else {
      var less, last := lines[..|lines| - 1], lines[|lines| - 1];
      assert lines == less + [last];
      NothingIsLost(less, names, f);
      if Accepted(last) {
        var at :| 0 <= at < |names| && names[at] == last.name;
        var before, after := Parsed(less), Parsed(lines);
        AppliedValue(SampleOf(before, last.name), last, f);
        hide Parsed, FieldOf, Applied;
        assert forall k :: 0 <= k < |names| && k != at ==> names[k] != last.name;
        SumChanged(before, after, names, f, at, if FieldOf(last) == f then last.value.value else 0.0);
      }
    }
  }

  lemma {:induction false} SumOfNone(names: seq<string>, f: Field)
    requires IsCounter(f)
    ensures SumOver(map[], names, f) == 0.0
  {
    if |names| > 0 {
      SumOfNone(names[..|names| - 1], f);
    }
  }
}
