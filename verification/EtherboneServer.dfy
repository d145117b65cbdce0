/**
 * The server loop itself: one pass over the request that performs the bus
 * accesses as it parses and builds the reply in the caller's buffer.
 */
module EtherboneServer {
  import opened Bytes
  import opened Etherbone

  /** Bytes are stored from `at` on and nothing after them changes. */
  method PutBe32(a: array<byte>, at: nat, v: u32)
    requires at + 4 <= a.Length
    modifies a
    ensures a[..at + 4] == old(a[..at]) + Be32(v)
    ensures a[at + 4..] == old(a[at + 4..])
  {
    Be32Bytes(v);
    a[at], a[at + 1], a[at + 2], a[at + 3] := v / 0x100_0000, v / 0x1_0000 % 0x100, v / 0x100 % 0x100, v % 0x100;
    assert a[at..at + 4] == Be32(v);
    assert a[..at + 4] == a[..at] + a[at..at + 4];
  }

  method PutHeader(a: array<byte>, pr: bool)
    requires 8 <= a.Length
    modifies a
    ensures a[..8] == Header(pr) && a[8..] == old(a[8..])
  {
    a[0], a[1] := MAGIC0, MAGIC1;
    a[2] := 0x10 + if pr then 0x02 else 0;
    a[3] := 0x44;
    a[4], a[5], a[6], a[7] := 0, 0, 0, 0;
  }

  method PutRecordHead(a: array<byte>, at: nat, count: byte, base: u32)
    requires at + 8 <= a.Length
    modifies a
    ensures a[..at + 8] == old(a[..at]) + (RecordHead(count, 0) + Be32(base))
    ensures a[at + 8..] == old(a[at + 8..])
  {
    a[at], a[at + 1], a[at + 2], a[at + 3] := 0, 0x0f, count, 0;
    assert a[..at + 4] == old(a[..at]) + RecordHead(count, 0);
    PutBe32(a, at + 4, base);
  }

  method BusWrites(tr0: seq<Access>, req: Bytes, p: nat, base: u32, count: nat) returns (tr: seq<Access>)
    requires p + 4 * count <= |req|
    ensures tr == DoWrites(tr0, base, WordsAt(req, p, count))
  {
    tr := tr0;
    for i := 0 to count
      invariant tr == DoWrites(tr0, base, WordsAt(req, p, i))
    {
      var v := U32At(req, p + 4 * i);
      assert WordsAt(req, p, i + 1)[..i] == WordsAt(req, p, i);
      tr := tr + [Wr((base + 4 * i) % 0x1_0000_0000, v)];
    }
  }

  method BusReads(bus: Bus, tr0: seq<Access>, req: Bytes, p: nat, count: nat, resp: array<byte>, at: nat)
    returns (tr: seq<Access>)
    requires p + 4 * count <= |req| && at + 4 * count <= resp.Length
    modifies resp
    ensures tr == DoReads(bus, tr0, WordsAt(req, p, count))
    ensures resp[..at + 4 * count] == old(resp[..at]) + Flat(ReadVals(bus, tr0, WordsAt(req, p, count)))
    ensures resp[at + 4 * count..] == old(resp[at + 4 * count..])
  {
    hide Flat, Be32, DoReads, ReadVals, U32At, WordsAt;
    tr := tr0;
    NoReads(bus, tr0, req, p);
    for i := 0 to count
      invariant tr == DoReads(bus, tr0, WordsAt(req, p, i))
      invariant resp[..at + 4 * i] == old(resp[..at]) + Flat(ReadVals(bus, tr0, WordsAt(req, p, i)))
      invariant resp[at + 4 * i..] == old(resp[at + 4 * i..])
    {
      var addr := U32At(req, p + 4 * i);
      var v := bus(tr, addr);
      OneMoreRead(bus, tr0, req, p, i);
      DropMore(resp[..], old(resp[..]), at + 4 * i, 4);
      PutBe32(resp, at + 4 * i, v);
      tr := tr + [Rd(addr, v)];
    }
  }

  lemma DropMore(a: Bytes, b: Bytes, at: nat, n: nat)
    requires at + n <= |a| == |b| && a[at..] == b[at..]
    ensures a[at + n..] == b[at + n..]
  {
    assert a[at + n..] == a[at..][n..] && b[at + n..] == b[at..][n..];
  }

  lemma NoReads(bus: Bus, tr: seq<Access>, req: Bytes, p: nat)
    requires p <= |req|
    ensures DoReads(bus, tr, WordsAt(req, p, 0)) == tr && Flat(ReadVals(bus, tr, WordsAt(req, p, 0))) == []
  {
  }

  lemma OneMoreRead(bus: Bus, tr: seq<Access>, req: Bytes, p: nat, i: nat)
    requires p + 4 * (i + 1) <= |req|
    ensures var addrs, addr := WordsAt(req, p, i), U32At(req, p + 4 * i);
            var t := DoReads(bus, tr, addrs);
            && DoReads(bus, tr, WordsAt(req, p, i + 1)) == t + [Rd(addr, bus(t, addr))]
            && Flat(ReadVals(bus, tr, WordsAt(req, p, i + 1))) == Flat(ReadVals(bus, tr, addrs)) + Be32(bus(t, addr))
  {
    hide U32At, Be32;
    var addrs, addr := WordsAt(req, p, i), U32At(req, p + 4 * i);
    var v := bus(DoReads(bus, tr, addrs), addr);
    assert WordsAt(req, p, i + 1) == addrs + [addr];
    assert (addrs + [addr])[..i] == addrs;
    assert ReadVals(bus, tr, addrs + [addr]) == ReadVals(bus, tr, addrs) + [v];
    FlatAppend(ReadVals(bus, tr, addrs), [v]);
    FlatOne(v);
  }

  lemma FlatOne(v: u32)
    ensures Flat([v]) == Be32(v)
  {
    assert [v][1..] == [];
    assert Be32(v) + Flat([]) == Be32(v);
  }

  /** Answer one read section: header if it is the first, record head, then a value per bus read. */
  method AnswerSection(bus: Bus, tr0: seq<Access>, req: Bytes, p: nat, count: byte, resp: array<byte>,
                       len0: nat, ghost answers: seq<Answer>)
    returns (tr: seq<Access>, len: nat)
    requires count > 0 && p + SectionSize(count) <= |req|
    requires len0 == |Reply(answers)| && len0 <= resp.Length && resp[..len0] == Reply(answers)
    requires (if len0 == 0 then 8 else len0) + 8 + 4 * count <= resp.Length
    modifies resp
    ensures Outcome(tr, answers + [Answer(U32At(req, p), ReadVals(bus, tr0, WordsAt(req, p + 4, count)))])
         == ExecReads(bus, Outcome(tr0, answers), U32At(req, p), WordsAt(req, p + 4, count))
    ensures len == (if len0 == 0 then 8 else len0) + 8 + 4 * count
    ensures resp[..len] == Reply(answers + [Answer(U32At(req, p), ReadVals(bus, tr0, WordsAt(req, p + 4, count)))])
    ensures resp[len..] == old(resp[len..])
  {
    hide Flat, Be32, DoReads, ReadVals, U32At, WordsAt, RecordHead, Header, AnswersBytes;
    len := len0;
    if len == 0 {
      PutHeader(resp, false);
      len := 8;
    }
    ghost var begun := resp[..len];
    DropMore(resp[..], old(resp[..]), len, 8);
    DropMore(resp[..], old(resp[..]), len, 8 + 4 * count);
    var ret := U32At(req, p);
    PutRecordHead(resp, len, count, ret);
    len := len + 8;
    DropMore(resp[..], old(resp[..]), len, 4 * count);
    tr := BusReads(bus, tr0, req, p + 4, count, resp, len);
    len := len + 4 * count;
    ghost var a := Answer(ret, ReadVals(bus, tr0, WordsAt(req, p + 4, count)));
    ReplyGrows(answers, a, begun);
  }

  lemma ReplyGrows(answers: seq<Answer>, a: Answer, begun: Bytes)
    requires begun == if Reply(answers) == [] then Header(false) else Reply(answers)
    ensures Reply(answers + [a]) == begun + (RecordHead(|a.vals|, 0) + Be32(a.ret)) + Flat(a.vals)
  {
    hide RecordHead, Be32, Flat, Header;
    AnswersBytesAppend(answers, a);
    Regroup(Header(false), AnswersBytes(answers), RecordHead(|a.vals|, 0), Be32(a.ret), Flat(a.vals));
    if answers == [] {
      assert Header(false) + AnswersBytes(answers) == Header(false);
    }
  }

  lemma Regroup(a: Bytes, b: Bytes, c: Bytes, d: Bytes, e: Bytes)
    ensures a + (b + (c + d + e)) == a + b + (c + d) + e
  {
  }

  /** One record: done, or the packet ended inside it after `tr` and `len`. */
  method ServeRecord(bus: Bus, tr0: seq<Access>, req: Bytes, start: nat, resp: array<byte>, len0: nat,
                     ghost answers0: seq<Answer>)
    returns (tr: seq<Access>, len: nat, p: nat, stop: bool, ghost answers: seq<Answer>)
    requires 8 <= start && start + 4 <= |req| && |req| + 16 <= resp.Length
    requires len0 == |Reply(answers0)| && len0 <= start && resp[..len0] == Reply(answers0)
    modifies resp
    ensures stop ==> Interpret(bus, Outcome(tr0, answers0), Decode(req, start)) == Outcome(tr, answers)
    ensures !stop ==> p == ReadEnd(req, start) <= |req|
    ensures !stop ==> Outcome(tr, answers) == Exec(bus, Outcome(tr0, answers0), RecordOf(req, start))
    ensures len <= resp.Length && resp[..len] == Reply(answers)
    ensures stop || len <= p
    ensures len0 <= len && resp[len..] == old(resp[len..])
  {
    hide Reply, Header, DoReads, ReadVals, DoWrites, U32At, WordsAt, Interpret, Decode;
    var wcount: int, rcount: int := req[start + 2], req[start + 3];
    tr, len, p, stop, answers := tr0, len0, start + 4, false, answers0;
    if wcount > 0 {
      if p + 4 * (1 + wcount) > |req| {
        StopInWrites(bus, Outcome(tr0, answers0), req, start);
        stop := true;
        return;
      }
      var addr := U32At(req, p);
      tr := BusWrites(tr, req, p + 4, addr, wcount);
      p := p + 4 * (1 + wcount);
    } else {
      NoWrites(tr0, 0);
    }
    assert tr == DoWrites(tr0, WriteOf(req, start).wbase, WriteOf(req, start).wdata);
    if rcount > 0 {
      if p + 4 * (1 + rcount) > |req| {
        StopInReads(bus, Outcome(tr0, answers0), req, start);
        stop := true;
        return;
      }
      answers := answers + [Answer(U32At(req, p), ReadVals(bus, tr, WordsAt(req, p + 4, rcount)))];
      tr, len := AnswerSection(bus, tr, req, p, rcount, resp, len, answers0);
      p := p + 4 * (1 + rcount);
    }
  }

  /** eb8008_handle refines decode-then-interpret and writes nothing past the reply. */
  method Serve(bus: Bus, tr0: seq<Access>, req: Bytes, resp: array<byte>) returns (tr: seq<Access>, len: nat)
    requires |req| + 16 <= resp.Length
    modifies resp
    ensures len <= resp.Length && Served(tr, resp[..len]) == Handle(bus, tr0, req)
    ensures resp[len..] == old(resp[len..])
  {
    hide Reply, Be32, Header, Interpret, Decode, Exec;
    tr, len := tr0, 0;
    if |req| < 8 || req[0] != MAGIC0 || req[1] != MAGIC1 {
      return;
    }
    if req[2] % 2 == 1 {
      PutHeader(resp, true);
      PutBe32(resp, 8, 0);
      len := 12;
      return;
    }
    var p, stop := 8, false;
    ghost var answers: seq<Answer> := [];
    ghost var goal := Interpret(bus, Outcome(tr0, []), Decode(req, 8));
    NoReply();
    while !stop && p + 4 <= |req|
      invariant stop || 8 <= p <= |req|
      invariant !stop ==> Interpret(bus, Outcome(tr, answers), Decode(req, p)) == goal
      invariant stop ==> Outcome(tr, answers) == goal
      invariant len <= resp.Length && (stop || len <= p) && resp[..len] == Reply(answers)
      invariant resp[len..] == old(resp[len..])
      decreases !stop, |req| - p
    {
      ghost var start, o := p, Outcome(tr, answers);
      ghost var before, len' := resp[..], len;
      tr, len, p, stop, answers := ServeRecord(bus, tr, req, p, resp, len, answers);
      DropMore(before, old(resp[..]), len', len - len');
      if !stop {
        DecodeUnfold(req, start, p);
        InterpretCons(bus, o, RecordOf(req, start), Decode(req, p));
      }
    }
    if !stop {
      StopAtEnd(bus, Outcome(tr, answers), req, p);
    }
  }

  lemma NoReply()
    ensures Reply([]) == []
  {
  }

  lemma NoWrites(tr: seq<Access>, base: u32)
    ensures DoWrites(tr, base, []) == tr
  {
  }

  lemma StopAtEnd(bus: Bus, o: Outcome, b: Bytes, p: nat)
    requires p + 4 > |b|
    ensures Interpret(bus, o, Decode(b, p)) == o
  {
  }

  lemma StopInWrites(bus: Bus, o: Outcome, b: Bytes, p: nat)
    requires p + 4 <= |b| < WriteEnd(b, p)
    ensures Interpret(bus, o, Decode(b, p)) == o
  {
  }

  lemma InterpretCons(bus: Bus, o: Outcome, r: Record, rs: seq<Record>)
    ensures Interpret(bus, o, [r] + rs) == Interpret(bus, Exec(bus, o, r), rs)
  {
    assert ([r] + rs)[1..] == rs;
  }

  lemma StopInReads(bus: Bus, o: Outcome, b: Bytes, p: nat)
    requires p + 4 <= |b| && WriteEnd(b, p) <= |b| < ReadEnd(b, p)
    ensures var w := WriteOf(b, p);
            Interpret(bus, o, Decode(b, p)) == Outcome(DoWrites(o.trace, w.wbase, w.wdata), o.answers)
  {
    if b[p + 2] != 0 {
      InterpretCons(bus, o, WriteOf(b, p), []);
      assert [WriteOf(b, p)] + [] == [WriteOf(b, p)];
    }
  }
}
