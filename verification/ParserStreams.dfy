/**
  The parser over whole streams cut into chunks, and the pipeline from bytes to handler calls.

  The DCS data loop passes DEL on as data while the table ignores it.  `DelInData` says where
  this happens, and `ParseExactly` that it is the only difference the fast loops ever make.
  */
module ParserStreams {
  import opened Machine
  import opened Transitions
  import opened EscapeParser
  import D = Utf8Decoder
  import U = Utf8Streams

  /** The last of `codes` is one the table takes for DCS data. */
  ghost predicate EndsInData(p: PState, codes: seq<nat>) {
    |codes| > 0 &&
    Table(Parse(p, codes[..|codes| - 1]).state.state, codes[|codes| - 1]).action == DcsPut
  }

  /** Position `j` of a chunk holds a DEL right behind DCS data. */
  ghost predicate DelAfterData(p: PState, codes: seq<nat>, j: nat)
    requires j < |codes|
  {
    codes[j] == DEL && EndsInData(p, codes[..j])
  }

  ghost predicate DelInData(p: PState, codes: seq<nat>) {
    exists j :: 0 <= j < |codes| && DelAfterData(p, codes, j)
  }

  lemma DelInDataSnoc(p: PState, codes: seq<nat>)
    requires |codes| > 0
    ensures var n := |codes| - 1;
            DelInData(p, codes) <==> DelInData(p, codes[..n]) || (codes[n] == DEL && EndsInData(p, codes[..n]))
  {
    hide EndsInData;
    var n := |codes| - 1;
    var shorter := codes[..n];
    forall j | 0 <= j < n ensures DelAfterData(p, codes, j) <==> DelAfterData(p, shorter, j) {
      assert shorter[..j] == codes[..j];
    }
    assert DelAfterData(p, codes, n) <==> codes[n] == DEL && EndsInData(p, codes[..n]);
  }

  /** The data loop is in DCS passthrough, where the table ignores DEL. */
  lemma FastStepAgrees(f: FastState, code: nat)
    requires f.inPut ==> f.p.state == DcsPassthrough
    ensures var s := FastStep(f, code); var t := Step(f.p, code);
            && s.state.p == t.state
            && (s.state.inPut ==> s.state.p.state == DcsPassthrough)
            && (f.inPut && code == DEL ==> s.out == [DcsByte(DEL)] && t.out == [])
            && (!(f.inPut && code == DEL) ==> s.out == t.out && s.state.inPut == (Table(f.p.state, code).action == DcsPut))
  {
  }

  /** What the two parsers have in common and what not, after any chunk. */
  lemma {:induction false} FastAgrees(p: PState, codes: seq<nat>)
    ensures var f := FastParse(p, codes); var s := Parse(p, codes);
            && f.state.p == s.state
            && (f.state.inPut ==> s.state.state == DcsPassthrough)
            && |f.out| >= |s.out|
            && (DelInData(p, codes) ==> |f.out| > |s.out|)
            && (!DelInData(p, codes) ==> f.out == s.out)
            && (!DelInData(p, codes) ==> f.state.inPut == EndsInData(p, codes))
    decreases |codes|
  {
    if |codes| > 0 {
      hide Step, FastStep, Table, DelInData;
      var n := |codes| - 1;
      var shorter := codes[..n];
      FastAgrees(p, shorter);
      DelInDataSnoc(p, codes);
      FastStepAgrees(FastParse(p, shorter).state, codes[n]);
    } else {
      assert !DelInData(p, codes);
    }
  }

  /**
    One call of the parser against the table: state, collected characters and parameters
    always agree; the events agree exactly when no DEL stands inside DCS data.
    */
  lemma ParseExactly(p: PState, codes: seq<nat>)
    ensures FastParse(p, codes).state.p == Parse(p, codes).state
    ensures FastParse(p, codes).out == Parse(p, codes).out <==> !DelInData(p, codes)
  {
    hide DelInData, Step, FastStep;
    FastAgrees(p, codes);
  }

  // ---------------------------------------------------------------- chunks

  /** A run of `parse` calls. */
  ghost function ParseChunks(p: PState, chunks: seq<seq<nat>>): Outcome<PState, Event>
    decreases |chunks|
  {
    if |chunks| == 0 then Outcome(p, [])
    else
      var first := FastParse(p, chunks[0]);
      var rest := ParseChunks(first.state.p, chunks[1..]);
      Outcome(rest.state, first.out + rest.out)
  }

  ghost predicate DataWithoutDel(p: PState, chunks: seq<seq<nat>>)
    decreases |chunks|
  {
    |chunks| == 0 || (!DelInData(p, chunks[0]) && DataWithoutDel(Parse(p, chunks[0]).state, chunks[1..]))
  }

  lemma {:induction false} ChunksCount(p: PState, chunks: seq<seq<nat>>)
    ensures var f := ParseChunks(p, chunks); var s := Parse(p, Flatten(chunks));
            && f.state == s.state
            && |f.out| >= |s.out|
            && (DataWithoutDel(p, chunks) ==> f.out == s.out)
            && (!DataWithoutDel(p, chunks) ==> |f.out| > |s.out|)
    decreases |chunks|
  {
    if |chunks| > 0 {
      hide Step, FastStep, DelInData;
      FastAgrees(p, chunks[0]);
      ChunksCount(Parse(p, chunks[0]).state, chunks[1..]);
      RunConcat(Step, p, chunks[0], Flatten(chunks[1..]));
    }
  }

  /**
    A stream parsed in any chunks ends in the state of the uncut stream, and makes the same
    handler calls exactly when no chunk holds a DEL right behind DCS data.
    */
  lemma ChunksExactly(p: PState, chunks: seq<seq<nat>>)
    ensures ParseChunks(p, chunks).state == Parse(p, Flatten(chunks)).state
    ensures ParseChunks(p, chunks).out == Parse(p, Flatten(chunks)).out <==> DataWithoutDel(p, chunks)
  {
    hide Step, FastStep, DelInData;
    ChunksCount(p, chunks);
  }

  /** Where the cuts fall cannot matter: two ways of cutting one stream. */
  lemma CutsDoNotMatter(p: PState, a: seq<seq<nat>>, b: seq<seq<nat>>)
    requires Flatten(a) == Flatten(b)
    ensures ParseChunks(p, a).state == ParseChunks(p, b).state
    ensures DataWithoutDel(p, a) && DataWithoutDel(p, b) ==> ParseChunks(p, a) == ParseChunks(p, b)
  {
    ChunksExactly(p, a);
    ChunksExactly(p, b);
  }

  /** The failing input: a data code and a DEL, in one chunk and in two. */
  lemma DelDependsOnTheCut(p: PState, c: nat)
    requires p.state == DcsPassthrough && IsPrintable(c)
    ensures ParseChunks(p, [[c, DEL]]).out != ParseChunks(p, [[c], [DEL]]).out
  {
    hide Step, FastStep, Run;
    var whole: seq<nat>, one: seq<nat>, two: seq<nat> := [c, DEL], [c], [DEL];
    assert one + two == whole;
    TwoPieces(one, two);
    OnePiece(whole);
    ChunksCount(p, [whole]);
    ChunksCount(p, [one, two]);
    DelIsInData(p, c);
  }

  lemma OnePiece(codes: seq<nat>)
    ensures Flatten([codes]) == codes
  {
    assert [codes][1..] == [];
  }

  lemma TwoPieces(a: seq<nat>, b: seq<nat>)
    ensures Flatten([a, b]) == a + b && [a, b][1..] == [b]
  {
    var pieces: seq<seq<nat>> := [a, b];
    assert pieces[1..] == [b];
    OnePiece(b);
    assert Flatten(pieces) == pieces[0] + Flatten(pieces[1..]);
  }

  lemma DelIsInData(p: PState, c: nat)
    requires p.state == DcsPassthrough && IsPrintable(c)
    ensures !DataWithoutDel(p, [[c, DEL]]) && DataWithoutDel(p, [[c], [DEL]])
  {
    var codes: seq<nat> := [c, DEL];
    assert codes[..1] == [c] && [c][..0] == [];
    assert DelAfterData(p, codes, 1);
    assert [c][..0] == [] && [DEL][..0] == [];
    assert !DelInData(p, [c]) && !DelInData(Parse(p, [c]).state, [DEL]);
    assert [[c], [DEL]][1..] == [[DEL]];
  }

  // ---------------------------------------------------------------- bytes to handler calls

  /** The chunks the decoder hands to the parser, one per slice. */
  ghost function Decoded(i: seq<D.Byte>, slices: seq<seq<D.Byte>>): seq<seq<nat>>
    requires |i| == 3
    decreases |slices|
  {
    if |slices| == 0 then []
    else [D.Read(D.Seen(i), slices[0]).out] + Decoded(D.NextInterim(i, slices[0]), slices[1..])
  }

  lemma {:induction false} DecodedIsFed(i: seq<D.Byte>, slices: seq<seq<D.Byte>>)
    requires |i| == 3
    ensures Flatten(Decoded(i, slices)) == U.Feed(i, slices).out
    decreases |slices|
  {
    if |slices| > 0 {
      DecodedIsFed(D.NextInterim(i, slices[0]), slices[1..]);
      var chunks := Decoded(i, slices);
      assert chunks[1..] == Decoded(D.NextInterim(i, slices[0]), slices[1..]);
    }
  }

  /**
    From slices of bytes to handler calls.  Text cut anywhere, except right behind a 0x80 inside
    a character, reaches the handlers as if it had been parsed code by code in one piece;
    the cuts that are harmless are the same for every state of the parser.
    */
  lemma PipelineExactly(p: PState, vs: seq<D.Code>, slices: seq<seq<D.Byte>>)
    requires U.Text(vs) && Flatten(slices) == U.EncodeAll(vs)
    requires U.CleanSplit([], slices)
    ensures var run := ParseChunks(p, Decoded(D.Pad([]), slices));
            var ideal := Parse(p, U.WithoutMarks(vs));
            && run.state == ideal.state
            && (run.out == ideal.out <==> DataWithoutDel(p, Decoded(D.Pad([]), slices)))
  {
    DecodedIsFed(D.Pad([]), slices);
    U.DecodesExactly(vs, slices);
    ChunksExactly(p, Decoded(D.Pad([]), slices));
  }
}
