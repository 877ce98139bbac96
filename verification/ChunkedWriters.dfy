/** What every content provider sends, whatever it calls on the sink and when, and what is read of it. */
module ChunkedWriters {
  import opened Chunked
  import opened SizeLines

  /** The writer asks the provider again after these calls on the sink: the last one wrote something. */
  predicate GoesOn(ops: seq<SinkOp>) {
    ops == [] || (ops[|ops| - 1].Write? && ops[|ops| - 1].data != "")
  }

  /** The calls on the sink that are made at all. */
  function Performed(calls: seq<seq<SinkOp>>): seq<SinkOp> {
    if calls == [] then [] else calls[0] + if GoesOn(calls[0]) then Performed(calls[1..]) else []
  }

  /** The writes among them, in order. */
  function Writes(ops: seq<SinkOp>): seq<string> {
    if ops == [] then [] else (if ops[0].Write? then [ops[0].data] else []) + Writes(ops[1..])
  }

  /** The calls before the end of the body, and those after it. */
  function BeforeDone(ops: seq<SinkOp>): seq<SinkOp> {
    if ops == [] || ops[0].Done? then [] else [ops[0]] + BeforeDone(ops[1..])
  }

  function AfterDone(ops: seq<SinkOp>): seq<SinkOp>
    requires Done in ops
  {
    if ops[0].Done? then ops[1..] else AfterDone(ops[1..])
  }

  function SentBy(ops: seq<SinkOp>): string {
    if ops == [] then ""
    else (match ops[0] case Write(d) => Chunk(d) case Done => LAST_CHUNK) + SentBy(ops[1..])
  }

  /** All writes can be announced. */
  predicate AllSized(ops: seq<SinkOp>) {
    forall op <- ops :: op.Write? ==> |op.data| < ULONG_MAX
  }

  lemma {:induction false} AfterOps(k: Sink, ops: seq<SinkOp>)
    ensures
      SinkAfterAll(k, ops) ==
        Sink(k.sent + SentBy(ops), if ops == [] then k.available else GoesOn(ops), k.offset + |Concat(Writes(ops))|)
    decreases |ops|
  {
    hide Chunk;
    if ops == [] {
      assert k.sent + "" == k.sent;
    } else {
      var k1 := SinkAfter(k, ops[0]);
      AfterOps(k1, ops[1..]);
      WritesCons(ops);
      Associate(k.sent, SentBy(ops[..1]), SentBy(ops[1..]));
      SentOne(ops);
    }
  }

  lemma WritesCons(ops: seq<SinkOp>)
    requires ops != []
    ensures Concat(Writes(ops)) == (if ops[0].Write? then ops[0].data else "") + Concat(Writes(ops[1..]))
  {
    if ops[0].Write? {
      assert Writes(ops)[1..] == Writes(ops[1..]);
    } else {
      assert Writes(ops) == Writes(ops[1..]);
    }
  }

  lemma SentOne(ops: seq<SinkOp>)
    requires ops != []
    ensures SentBy(ops[..1]) == match ops[0] case Write(d) => Chunk(d) case Done => LAST_CHUNK
  {
    hide Chunk;
    assert ops[..1][0] == ops[0] && ops[..1][1..] == [];
  }

  lemma {:induction false} SentAppend(a: seq<SinkOp>, b: seq<SinkOp>)
    ensures SentBy(a + b) == SentBy(a) + SentBy(b)
    decreases |a|
  {
    hide Chunk;
    if a == [] {
      assert a + b == b;
      assert SentBy(b) == "" + SentBy(b);
    } else {
      assert (a + b)[0] == a[0] && (a + b)[1..] == a[1..] + b;
      SentAppend(a[1..], b);
      SentOne(a);
      SentOne(a + b);
      Associate(SentBy(a[..1]), SentBy(a[1..]), SentBy(b));
    }
  }

  lemma {:induction false} WritesAppend(a: seq<SinkOp>, b: seq<SinkOp>)
    ensures Writes(a + b) == Writes(a) + Writes(b)
    decreases |a|
  {
    if a == [] {
      assert a + b == b;
    } else {
      assert (a + b)[0] == a[0] && (a + b)[1..] == a[1..] + b;
      WritesAppend(a[1..], b);
    }
  }

  lemma {:induction false} ConcatAppend(a: seq<string>, b: seq<string>)
    ensures Concat(a + b) == Concat(a) + Concat(b)
  {
    if a == [] {
      assert a + b == b && Concat(b) == "" + Concat(b);
    } else {
      assert (a + b)[1..] == a[1..] + b;
      ConcatAppend(a[1..], b);
    }
  }

  /** The writer performs the calls up to one after which it stops asking, and hands on as its offset the
      number of bytes written so far. */
  lemma {:induction false} ProvidedIsPerformed(k: Sink, calls: seq<seq<SinkOp>>)
    requires k.available
    ensures
      var r, ops := Provide(k, calls), Performed(calls);
      r.sent == k.sent + SentBy(ops) && r.offset == k.offset + |Concat(Writes(ops))|
    decreases |calls|
  {
    if calls == [] {
      assert k.sent + "" == k.sent;
    } else {
      AfterOps(k, calls[0]);
      var k1, more := SinkAfterAll(k, calls[0]), if GoesOn(calls[0]) then Performed(calls[1..]) else [];
      SentAppend(calls[0], more);
      WritesAppend(calls[0], more);
      ConcatAppend(Writes(calls[0]), Writes(more));
      Associate(k.sent, SentBy(calls[0]), SentBy(more));
      hide SinkAfterAll, SentBy, Writes, Concat, GoesOn, Performed;
      if k1.available {
        ProvidedIsPerformed(k1, calls[1..]);
      }
      StepIs(k, k1, calls, more);
    }
  }

  lemma StepIs(k: Sink, k1: Sink, calls: seq<seq<SinkOp>>, more: seq<SinkOp>)
    requires k.available && calls != [] && k1 == SinkAfterAll(k, calls[0])
    requires more == if GoesOn(calls[0]) then Performed(calls[1..]) else []
    ensures Performed(calls) == calls[0] + more && Provide(k, calls) == Provide(k1, calls[1..])
    ensures SentBy([]) == "" && Writes([]) == [] && Concat([]) == ""
    ensures !k1.available ==> Provide(k1, calls[1..]) == k1
  {
    hide SinkAfterAll;
  }

  lemma {:induction false} WithoutDone(ops: seq<SinkOp>)
    requires Done !in ops
    ensures SentBy(ops) == Chunks(Writes(ops))
    decreases |ops|
  {
    hide Chunk;
    if ops != [] {
      WithoutDone(ops[1..]);
      assert ops[0] in ops;
      assert Writes(ops)[1..] == Writes(ops[1..]);
    }
  }

  lemma {:induction false} DoneSplits(ops: seq<SinkOp>)
    ensures Done !in BeforeDone(ops)
    ensures if Done in ops then ops == BeforeDone(ops) + [Done] + AfterDone(ops) else ops == BeforeDone(ops)
    decreases |ops|
  {
    if ops != [] && ops[0].Write? {
      DoneSplits(ops[1..]);
      assert ops == [ops[0]] + ops[1..];
      if Done in ops {
        assert [ops[0]] + (BeforeDone(ops[1..]) + [Done] + AfterDone(ops[1..]))
            == BeforeDone(ops) + [Done] + AfterDone(ops);
      }
    } else if ops != [] {
      assert ops == [] + [Done] + ops[1..];
    }
  }

  lemma {:induction false} WritesSized(ops: seq<SinkOp>)
    requires AllSized(ops)
    ensures Sized(Writes(ops))
    decreases |ops|
  {
    if ops != [] {
      WritesSized(ops[1..]);
      assert ops[0] in ops;
    }
  }

  lemma SizedBefore(ops: seq<SinkOp>)
    requires AllSized(ops)
    ensures AllSized(BeforeDone(ops))
  {
    DoneSplits(ops);
    forall op | op in BeforeDone(ops)
      ensures op in ops
    {
    }
  }

  /** What a reader makes of it: the body is accepted if and only if the provider ended it, in a call that
      the writer still made; it is what was written before that end, and everything sent later is left
      unread.  Otherwise all that was written is delivered and the body refused. */
  lemma EveryProvider(calls: seq<seq<SinkOp>>)
    requires AllSized(Performed(calls))
    ensures
      var r, ops := ReadBody(Provide(Sink("", true, 0), calls).sent), Performed(calls);
      && r.ok == (Done in ops) && r.out == Concat(Writes(BeforeDone(ops)))
      && r.rest == if Done in ops then SentBy(AfterDone(ops)) else ""
  {
    hide *;
    ProvidedIsPerformed(Sink("", true, 0), calls);
    var ops := Performed(calls);
    EmptyFirst(SentBy(ops));
    DoneSplits(ops);
    SizedBefore(ops);
    WritesSized(BeforeDone(ops));
    WithoutDone(BeforeDone(ops));
    if Done in ops {
      EndedSends(ops);
      ChunkedRoundTrip(Writes(BeforeDone(ops)), SentBy(AfterDone(ops)));
    } else {
      UnfinishedIsRefused(Writes(ops));
    }
  }

  lemma EmptyFirst(s: string)
    ensures "" + s == s
  {
  }

  lemma EndedSends(ops: seq<SinkOp>)
    requires Done in ops
    ensures SentBy(ops) == Chunks(Writes(BeforeDone(ops))) + LAST_CHUNK + SentBy(AfterDone(ops))
  {
    hide Chunk, Chunks, Writes, BeforeDone, AfterDone;
    DoneSplits(ops);
    var before, after := BeforeDone(ops), AfterDone(ops);
    WithoutDone(before);
    SentAppend(before + [Done], after);
    SentAppend(before, [Done]);
    assert [Done][1..] == [] && LAST_CHUNK + "" == LAST_CHUNK;
  }

  /** How a write goes out: nothing for an empty one, and otherwise its size in lower-case hexadecimal
      without a zero too many, the data, and a line end after each; and how the end does. */
  lemma ChunkIsWritten(data: string, t: string)
    requires data != ""
    ensures Chunk("") == "" && LAST_CHUNK == "0\r\n\r\n"
    ensures Chunk(data) == t <==> exists size :: IsPrinted(size, |data|) && t == size + ("\r\n" + (data + "\r\n"))
  {
    hide Hex, IsPrinted;
    PrintedSize(|data|, Hex(|data|));
    assert Chunk(data) == Hex(|data|) + ("\r\n" + (data + "\r\n"));
    if size :| IsPrinted(size, |data|) && t == size + ("\r\n" + (data + "\r\n")) {
      PrintedSize(|data|, size);
    }
  }
}
