/**
  The loop that passes the output of the terminal on to the socket, through one buffer that is
  used over and over.  It decides how the output is cut.
  */
module Relay {
  import opened Machine
  import opened Transitions
  import opened EscapeParser
  import opened ParserStreams
  import D = Utf8Decoder
  import U = Utf8Streams

  const BUFFER_SIZE: nat := 4096

  /** One read: some bytes, and whether it was the last. */
  datatype Reading = Reading(bytes: seq<D.Byte>, failed: bool)

  ghost predicate Fit(readings: seq<Reading>) {
    forall k :: 0 <= k < |readings| ==> |readings[k].bytes| <= BUFFER_SIZE
  }

  /** The messages for a run of reads: what was read, until a read failed. */
  function Messages(readings: seq<Reading>): seq<seq<D.Byte>> {
    if |readings| == 0 then []
    else (if readings[0].bytes == [] then [] else [readings[0].bytes]) + if readings[0].failed then [] else Messages(readings[1..])
  }

  /** Everything that was read until a read failed. */
  function Output(readings: seq<Reading>): seq<D.Byte> {
    if |readings| == 0 then [] else readings[0].bytes + if readings[0].failed then [] else Output(readings[1..])
  }

  /** The messages together are what was read; none is empty and none is longer than the buffer. */
  lemma {:induction false} MessagesMeaning(readings: seq<Reading>)
    requires Fit(readings)
    ensures Flatten(Messages(readings)) == Output(readings)
    ensures forall k :: 0 <= k < |Messages(readings)| ==> 0 < |Messages(readings)[k]| <= 4096
  {
    if |readings| > 0 {
      MessagesMeaning(readings[1..]);
      var head: seq<seq<D.Byte>> := if readings[0].bytes == [] then [] else [readings[0].bytes];
      var tail := if readings[0].failed then [] else Messages(readings[1..]);
      FlattenConcat(head, tail);
      assert Flatten(head) == readings[0].bytes by {
        if head != [] {
          assert head[1..] == [];
        }
      }
    }
  }

  lemma NextMessage(readings: seq<Reading>, k: nat)
    requires k < |readings|
    ensures Messages(readings[k..]) == (if readings[k].bytes == [] then [] else [readings[k].bytes])
                                       + (if readings[k].failed then [] else Messages(readings[k + 1..]))
  {
    assert readings[k..][0] == readings[k] && readings[k..][1..] == readings[k + 1..];
  }

  lemma Regroup<T>(a: seq<T>, b: seq<T>, c: seq<T>)
    ensures a + (b + c) == (a + b) + c && a + [] == a && a <= a + b
  {
  }

  /** Reads into the buffer and sends what was read, until a read or a send fails. */
  method Pump(buf: array<D.Byte>, readings: seq<Reading>, sends: seq<bool>) returns (sent: seq<seq<D.Byte>>)
    requires buf.Length == BUFFER_SIZE && Fit(readings) && |sends| >= |readings|
    modifies buf
    ensures |sent| <= |sends| && sent <= Messages(readings) && forall i :: 0 <= i < |sent| ==> sends[i]
    ensures sent != Messages(readings) ==> |sent| < |sends| && !sends[|sent|]
  {
    hide Messages;
    sent := [];
    assert readings[0..] == readings;
    Regroup([], Messages(readings), []);
    var k := 0;
    while k < |readings|
      invariant k <= |readings| && |sent| <= k && Messages(readings) == sent + Messages(readings[k..])
      invariant forall i :: 0 <= i < |sent| ==> sends[i]
    {
      NextMessage(readings, k);
      var n := ReadInto(buf, readings[k].bytes);
      ghost var head: seq<seq<D.Byte>> := if n == 0 then [] else [readings[k].bytes];
      ghost var tail := if readings[k].failed then [] else Messages(readings[k + 1..]);
      Regroup(sent, head, tail);
      Regroup(sent, head + tail, []);
      Regroup(sent + head, [], []);
      if n > 0 {
        if !sends[|sent|] {
          return;
        }
        sent := sent + [buf[..n]];
      }
      if readings[k].failed {
        return;
      }
      k := k + 1;
    }
    NothingLeft(readings);
    Regroup(sent, [], []);
  }

  lemma NothingLeft(readings: seq<Reading>)
    ensures Messages(readings[|readings|..]) == []
  {
  }

  method ReadInto(buf: array<D.Byte>, bytes: seq<D.Byte>) returns (n: nat)
    requires |bytes| <= buf.Length
    modifies buf
    ensures n == |bytes| && buf[..n] == bytes
  {
    n := |bytes|;
    for i := 0 to n
      invariant buf[..i] == bytes[..i]
    {
      buf[i] := bytes[i];
      assert bytes[..i + 1] == bytes[..i] + [bytes[i]];
    }
  }

  /**
    From the output of the container to handler calls: text that is passed on completely arrives
    as if it had been parsed code by code in one piece, whatever the reads were, as long as
    none of them ends behind a 0x80 inside a character or puts a DEL behind DCS data.
    */
  lemma SessionExactly(p: PState, vs: seq<D.Code>, readings: seq<Reading>)
    requires Fit(readings) && U.Text(vs) && Output(readings) == U.EncodeAll(vs) && U.CleanSplit([], Messages(readings))
    ensures var chunks := Decoded(D.Pad([]), Messages(readings));
            var ideal := Parse(p, U.WithoutMarks(vs));
            && ParseChunks(p, chunks).state == ideal.state
            && (ParseChunks(p, chunks).out == ideal.out <==> DataWithoutDel(p, chunks))
  {
    MessagesMeaning(readings);
    PipelineExactly(p, vs, Messages(readings));
  }
}
