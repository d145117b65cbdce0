/**
 * The Etherbone dialect of the software server: the packet grammar, what a
 * request does to the bus, and the reply it earns.  The bus is known only by
 * the accesses made on it: a read returns any function of all accesses before it.
 */
module Etherbone {
  import opened Bytes

  const MAGIC0: byte := 0x4e
  const MAGIC1: byte := 0x6f

  /** One record: a write section and a read section, either of them empty. */
  datatype Record = Record(wbase: u32, wdata: seq<u32>, ret: u32, raddrs: seq<u32>)

  datatype Access = Rd(addr: u32, val: u32) | Wr(addr: u32, val: u32)

  type Bus = (seq<Access>, u32) -> u32

  /** The values one read section earned, under its base_ret_addr. */
  datatype Answer = Answer(ret: u32, vals: seq<u32>)

  datatype Outcome = Outcome(trace: seq<Access>, answers: seq<Answer>)

  datatype Served = Served(trace: seq<Access>, reply: Bytes)

  // ---- wire form ----------------------------------------------------------------

  /** Version 1, 32 bit addresses and ports; `pr` marks a probe reply. */
  function Header(pr: bool): (h: Bytes)
    ensures |h| == 8
  {
    [MAGIC0, MAGIC1, if pr then 0x12 else 0x10, 0x44, 0, 0, 0, 0]
  }

  predicate Encodable(r: Record) {
    && |r.wdata| < 0x100 && |r.raddrs| < 0x100
    && (r.wdata == [] ==> r.wbase == 0)
    && (r.raddrs == [] ==> r.ret == 0)
  }

  predicate AllEncodable(rs: seq<Record>) {
    rs == [] || (Encodable(rs[0]) && AllEncodable(rs[1..]))
  }

  function EncodeSection(base: u32, ws: seq<u32>): (b: Bytes)
    ensures |b| == SectionSize(|ws|)
  {
    if ws == [] then [] else Be32(base) + Flat(ws)
  }

  function SectionSize(n: nat): nat {
    if n == 0 then 0 else 4 * (1 + n)
  }

  /** Flags, byte enable, the two counts as single bytes, then the sections. */
  function RecordHead(w: nat, r: nat): (b: Bytes)
    ensures |b| == 4
  {
    [0, 0x0f, w % 0x100, r % 0x100]
  }

  function EncodeRecord(r: Record): (b: Bytes)
    ensures |b| == 4 + SectionSize(|r.wdata|) + SectionSize(|r.raddrs|)
  {
    RecordHead(|r.wdata|, |r.raddrs|) + EncodeSection(r.wbase, r.wdata) + EncodeSection(r.ret, r.raddrs)
  }

  function EncodeRecords(rs: seq<Record>): Bytes {
    if rs == [] then [] else EncodeRecord(rs[0]) + EncodeRecords(rs[1..])
  }

  /** Where the sections of the record at `p` end, by its counts. */
  function WriteEnd(b: Bytes, p: nat): nat
    requires p + 4 <= |b|
  {
    p + 4 + SectionSize(b[p + 2])
  }

  function ReadEnd(b: Bytes, p: nat): nat
    requires p + 4 <= |b|
  {
    WriteEnd(b, p) + SectionSize(b[p + 3])
  }

  function SectionBase(b: Bytes, p: nat, n: nat): u32
    requires p + SectionSize(n) <= |b|
  {
    if n == 0 then 0 else U32At(b, p)
  }

  function SectionWords(b: Bytes, p: nat, n: nat): (ws: seq<u32>)
    requires p + SectionSize(n) <= |b|
    ensures |ws| == n
  {
    if n == 0 then [] else WordsAt(b, p + 4, n)
  }

  /** The write section of the record at `p`. */
  function WriteOf(b: Bytes, p: nat): Record
    requires p + 4 <= |b| && WriteEnd(b, p) <= |b|
  {
    Record(SectionBase(b, p + 4, b[p + 2]), SectionWords(b, p + 4, b[p + 2]), 0, [])
  }

  function RecordOf(b: Bytes, p: nat): Record
    requires p + 4 <= |b| && ReadEnd(b, p) <= |b|
  {
    var q := WriteEnd(b, p);
    WriteOf(b, p).(ret := SectionBase(b, q, b[p + 3]), raddrs := SectionWords(b, q, b[p + 3]))
  }

  /** The records from `p` on; decoding stops inside the first record that is cut short. */
  function Decode(b: Bytes, p: nat): seq<Record>
    decreases |b| - p
  {
    if p + 4 > |b| || WriteEnd(b, p) > |b| then []
    else if ReadEnd(b, p) > |b| then if b[p + 2] == 0 then [] else [WriteOf(b, p)]
    else [RecordOf(b, p)] + Decode(b, ReadEnd(b, p))
  }

  /** The records from `p` on end exactly at the end of the packet. */
  predicate Whole(b: Bytes, p: nat)
    decreases |b| - p
  {
    p == |b| || (p + 4 <= |b| && ReadEnd(b, p) <= |b| && Whole(b, ReadEnd(b, p)))
  }

  /** Decoding an encoded record list gives it back. */
  lemma {:induction false} DecodeEncode(b: Bytes, p: nat, rs: seq<Record>)
    requires AllEncodable(rs)
    requires Stored(b, p, EncodeRecords(rs)) && p + |EncodeRecords(rs)| == |b|
    ensures Decode(b, p) == rs && Whole(b, p)
    decreases |rs|
  {
    hide EncodeRecord, RecordOf, Stored;
    if rs != [] {
      var r, q := rs[0], p + |EncodeRecord(rs[0])|;
      StoredSplit(b, p, EncodeRecord(r), EncodeRecords(rs[1..]));
      DecodeOne(b, p, r);
      DecodeEncode(b, q, rs[1..]);
      DecodeUnfold(b, p, q);
      assert rs == [r] + rs[1..];
    }
  }

  lemma DecodeUnfold(b: Bytes, p: nat, q: nat)
    requires p + 4 <= |b| && q == ReadEnd(b, p) <= |b|
    ensures Decode(b, p) == [RecordOf(b, p)] + Decode(b, q)
    ensures Whole(b, q) ==> Whole(b, p)
  {
  }

  lemma DecodeOne(b: Bytes, p: nat, r: Record)
    requires Encodable(r) && Stored(b, p, EncodeRecord(r))
    ensures ReadEnd(b, p) == p + |EncodeRecord(r)| && RecordOf(b, p) == r
  {
    RecordParts(b, p, r);
    DecodeSection(b, p + 4, r.wbase, r.wdata);
    DecodeSection(b, WriteEnd(b, p), r.ret, r.raddrs);
  }

  lemma RecordParts(b: Bytes, p: nat, r: Record)
    requires Encodable(r) && Stored(b, p, EncodeRecord(r))
    ensures b[p + 2] == |r.wdata| && b[p + 3] == |r.raddrs|
    ensures Stored(b, p + 4, EncodeSection(r.wbase, r.wdata))
    ensures Stored(b, WriteEnd(b, p), EncodeSection(r.ret, r.raddrs))
  {
    hide EncodeSection, Stored;
    StoredInThree(b, p, RecordHead(|r.wdata|, |r.raddrs|),
                  EncodeSection(r.wbase, r.wdata), EncodeSection(r.ret, r.raddrs));
  }

  lemma StoredInThree(b: Bytes, p: nat, h: Bytes, w: Bytes, rd: Bytes)
    requires |h| == 4 && Stored(b, p, h + w + rd)
    ensures b[p + 2] == h[2] && b[p + 3] == h[3]
    ensures Stored(b, p + 4, w) && Stored(b, p + 4 + |w|, rd)
  {
    StoredSplit(b, p, h + w, rd);
    StoredSplit(b, p, h, w);
    StoredAt(b, p, h, 2);
    StoredAt(b, p, h, 3);
  }

  lemma DecodeSection(b: Bytes, p: nat, base: u32, ws: seq<u32>)
    requires Stored(b, p, EncodeSection(base, ws)) && (ws == [] ==> base == 0)
    ensures SectionBase(b, p, |ws|) == base && SectionWords(b, p, |ws|) == ws
  {
    if ws != [] {
      StoredSplit(b, p, Be32(base), Flat(ws));
      Be32RoundTrip(b, p, base);
      FlatRoundTrip(b, p + 4, ws);
    }
  }

  // ---- what a request does ---------------------------------------------------------

  /** Writes land at base, base + 4, ... modulo 2^32. */
  function DoWrites(tr: seq<Access>, base: u32, data: seq<u32>): seq<Access> {
    if data == [] then tr
    else
      var n := |data| - 1;
      DoWrites(tr, base, data[..n]) + [Wr((base + 4 * n) % 0x1_0000_0000, data[n])]
  }

  function DoReads(bus: Bus, tr: seq<Access>, addrs: seq<u32>): (tr': seq<Access>)
    ensures |tr'| == |tr| + |addrs| && tr <= tr'
  {
    if addrs == [] then tr
    else
      var n := |addrs| - 1;
      var t := DoReads(bus, tr, addrs[..n]);
      t + [Rd(addrs[n], bus(t, addrs[n]))]
  }

  /** The values of the reads just made. */
  function ReadVals(bus: Bus, tr: seq<Access>, addrs: seq<u32>): (vs: seq<u32>)
    ensures |vs| == |addrs|
  {
    if addrs == [] then []
    else
      var n := |addrs| - 1;
      ReadVals(bus, tr, addrs[..n]) + [bus(DoReads(bus, tr, addrs[..n]), addrs[n])]
  }

  function ExecReads(bus: Bus, o: Outcome, ret: u32, addrs: seq<u32>): Outcome {
    if addrs == [] then o
    else Outcome(DoReads(bus, o.trace, addrs), o.answers + [Answer(ret, ReadVals(bus, o.trace, addrs))])
  }

  /** Writes before reads. */
  function Exec(bus: Bus, o: Outcome, r: Record): Outcome {
    ExecReads(bus, Outcome(DoWrites(o.trace, r.wbase, r.wdata), o.answers), r.ret, r.raddrs)
  }

  function Interpret(bus: Bus, o: Outcome, rs: seq<Record>): Outcome
    decreases |rs|
  {
    if rs == [] then o else Interpret(bus, Exec(bus, o, rs[0]), rs[1..])
  }

  /** Reads are answered as writes to their return address. */
  function AsWrites(answers: seq<Answer>): (rs: seq<Record>)
    ensures |rs| == |answers|
  {
    if answers == [] then []
    else
      var n := |answers| - 1;
      AsWrites(answers[..n]) + [Record(answers[n].ret, answers[n].vals, 0, [])]
  }

  predicate Answerable(answers: seq<Answer>) {
    answers == [] ||
    (Answerable(answers[..|answers| - 1]) && 0 < |answers[|answers| - 1].vals| < 0x100)
  }

  lemma AnswerableAppend(answers: seq<Answer>, a: Answer)
    requires Answerable(answers) && 0 < |a.vals| < 0x100
    ensures Answerable(answers + [a])
  {
    assert (answers + [a])[..|answers|] == answers;
  }

  lemma {:induction false} AsWritesEncodable(answers: seq<Answer>)
    requires Answerable(answers)
    ensures AllEncodable(AsWrites(answers))
  {
    if answers != [] {
      var n := |answers| - 1;
      AsWritesEncodable(answers[..n]);
      EncodableAppend(AsWrites(answers[..n]), Record(answers[n].ret, answers[n].vals, 0, []));
    }
  }

  lemma {:induction false} EncodableAppend(rs: seq<Record>, r: Record)
    requires AllEncodable(rs) && Encodable(r)
    ensures AllEncodable(rs + [r])
  {
    if rs != [] {
      assert (rs + [r])[1..] == rs[1..] + [r];
      EncodableAppend(rs[1..], r);
    }
  }

  function AnswerBytes(a: Answer): Bytes {
    RecordHead(|a.vals|, 0) + Be32(a.ret) + Flat(a.vals)
  }

  function AnswersBytes(answers: seq<Answer>): Bytes {
    if answers == [] then []
    else AnswersBytes(answers[..|answers| - 1]) + AnswerBytes(answers[|answers| - 1])
  }

  /** A header once there is something to say, then one record per read section. */
  function Reply(answers: seq<Answer>): Bytes {
    if answers == [] then [] else Header(false) + AnswersBytes(answers)
  }

  predicate IsEtherbone(b: Bytes) {
    |b| >= 8 && b[0] == MAGIC0 && b[1] == MAGIC1
  }

  predicate IsProbe(b: Bytes) {
    IsEtherbone(b) && b[2] % 2 == 1
  }

  /** Decode, then interpret: the meaning of one request datagram. */
  function Handle(bus: Bus, tr: seq<Access>, req: Bytes): Served {
    if !IsEtherbone(req) then Served(tr, [])
    else if IsProbe(req) then Served(tr, Header(true) + Be32(0))
    else
      var o := Interpret(bus, Outcome(tr, []), Decode(req, 8));
      Served(o.trace, Reply(o.answers))
  }

  /** Counts come from single bytes, so every answer fits a record, and replies never outgrow the request. */
  lemma {:induction false} InterpretAnswerable(bus: Bus, o: Outcome, b: Bytes, p: nat)
    requires Answerable(o.answers)
    ensures Answerable(Interpret(bus, o, Decode(b, p)).answers)
    ensures p <= |b| ==> AnswerSize(Interpret(bus, o, Decode(b, p)).answers) <= AnswerSize(o.answers) + |b| - p
    decreases |b| - p
  {
    if p + 4 > |b| || WriteEnd(b, p) > |b| {
    } else {
      var r := Decode(b, p);
      if ReadEnd(b, p) > |b| {
        if r != [] {
          assert Interpret(bus, o, r) == Exec(bus, o, r[0]);
        }
      } else {
        var o' := Exec(bus, o, r[0]);
        assert r[1..] == Decode(b, ReadEnd(b, p));
        if r[0].raddrs != [] {
          var a := Answer(r[0].ret, ReadVals(bus, DoWrites(o.trace, r[0].wbase, r[0].wdata), r[0].raddrs));
          assert o'.answers == o.answers + [a];
          AnswerSizeAppend(o.answers, a);
          AnswerableAppend(o.answers, a);
        }
        InterpretAnswerable(bus, o', b, ReadEnd(b, p));
      }
    }
  }

  /** Bytes the answers take on the wire. */
  function AnswerSize(answers: seq<Answer>): nat {
    if answers == [] then 0 else AnswerSize(answers[..|answers| - 1]) + 8 + 4 * |answers[|answers| - 1].vals|
  }

  lemma AnswerSizeAppend(answers: seq<Answer>, a: Answer)
    ensures AnswerSize(answers + [a]) == AnswerSize(answers) + 8 + 4 * |a.vals|
  {
    assert (answers + [a])[..|answers|] == answers;
  }

  lemma {:induction false} EncodeRecordsAppend(a: seq<Record>, b: seq<Record>)
    ensures EncodeRecords(a + b) == EncodeRecords(a) + EncodeRecords(b)
  {
    if a == [] {
      assert a + b == b;
    } else {
      assert (a + b)[1..] == a[1..] + b;
      EncodeRecordsAppend(a[1..], b);
    }
  }

  lemma {:induction false} AnswersBytesSize(answers: seq<Answer>)
    ensures |AnswersBytes(answers)| == AnswerSize(answers)
  {
    if answers != [] {
      AnswersBytesSize(answers[..|answers| - 1]);
    }
  }

  lemma AnswersBytesAppend(answers: seq<Answer>, a: Answer)
    ensures AnswersBytes(answers + [a]) == AnswersBytes(answers) + AnswerBytes(a)
  {
    assert (answers + [a])[..|answers|] == answers;
  }

  lemma {:induction false} AnswersAreRecords(answers: seq<Answer>)
    requires Answerable(answers)
    ensures AnswersBytes(answers) == EncodeRecords(AsWrites(answers))
  {
    hide EncodeRecords, EncodeRecord, AnswerBytes;
    if answers == [] {
      NoRecords();
    } else {
      var n := |answers| - 1;
      var a := answers[n];
      var r := Record(a.ret, a.vals, 0, []);
      AnswersAreRecords(answers[..n]);
      EncodeRecordsAppend(AsWrites(answers[..n]), [r]);
      EncodeSingle(r);
      AnswerIsRecord(a);
    }
  }

  lemma NoRecords()
    ensures EncodeRecords([]) == []
  {
  }

  lemma AnswerIsRecord(a: Answer)
    requires 0 < |a.vals| < 0x100
    ensures EncodeRecord(Record(a.ret, a.vals, 0, [])) == AnswerBytes(a)
  {
  }

  lemma EncodeSingle(r: Record)
    ensures EncodeRecords([r]) == EncodeRecord(r)
  {
    assert [r][1..] == [];
    assert EncodeRecord(r) + EncodeRecords([]) == EncodeRecord(r);
  }

  /** Write number i lands at base + 4i modulo 2^32, in order, one access each. */
  lemma {:induction false} WritesLand(tr: seq<Access>, base: u32, data: seq<u32>)
    ensures var t := DoWrites(tr, base, data);
            && |t| == |tr| + |data| && tr <= t
            && forall i | 0 <= i < |data| :: t[|tr| + i] == Wr((base + 4 * i) % 0x1_0000_0000, data[i])
  {
    if data != [] {
      WritesLand(tr, base, data[..|data| - 1]);
    }
  }

  /** Read number i is one access to address i of the request, answered with what the bus returned. */
  lemma {:induction false} ReadsAnswer(bus: Bus, tr: seq<Access>, addrs: seq<u32>, i: nat)
    requires i < |addrs|
    ensures var t, v := DoReads(bus, tr, addrs), ReadVals(bus, tr, addrs)[i];
            t[|tr| + i] == Rd(addrs[i], v) && v == bus(t[..|tr| + i], addrs[i])
    decreases |addrs|
  {
    var n := |addrs| - 1;
    var t, t' := DoReads(bus, tr, addrs[..n]), DoReads(bus, tr, addrs);
    if i < n {
      ReadsAnswer(bus, tr, addrs[..n], i);
      assert t'[..|tr| + i] == t[..|tr| + i];
    } else {
      assert t'[..|tr| + n] == t;
    }
  }

  // ---- properties of the whole server -----------------------------------------------

  /** A probe reply outgrows its request by at most 4 bytes, any other reply not at all. */
  lemma ReplyFitsRequest(bus: Bus, tr: seq<Access>, req: Bytes)
    ensures |Handle(bus, tr, req).reply| <= if IsProbe(req) then |req| + 4 else |req|
  {
    if IsEtherbone(req) && !IsProbe(req) {
      InterpretAnswerable(bus, Outcome(tr, []), req, 8);
      AnswersBytesSize(Interpret(bus, Outcome(tr, []), Decode(req, 8)).answers);
    }
  }

  /** A probe touches nothing and is answered by a bare header with pr set and pf clear, plus 4 zero bytes. */
  lemma ProbeAnswered(bus: Bus, tr: seq<Access>, req: Bytes)
    requires IsProbe(req)
    ensures var s := Handle(bus, tr, req);
            && s.trace == tr && |s.reply| == 12
            && IsEtherbone(s.reply) && s.reply[2] / 2 % 2 == 1 && !IsProbe(s.reply) && s.reply[2] / 0x10 == 1
            && U32At(s.reply, 8) == 0
  {
    var b := Header(true) + Be32(0);
    PacketHolds(true, Be32(0));
    assert b[2] == Header(true)[2];
    Be32RoundTrip(b, 8, 0);
  }

  /** The reply parses under the same grammar: one write record per read section, in order. */
  lemma ReplyReparses(answers: seq<Answer>)
    requires Answerable(answers) && answers != []
    ensures var b := Reply(answers);
            IsEtherbone(b) && !IsProbe(b) && Whole(b, 8) && Decode(b, 8) == AsWrites(answers)
  {
    AsWritesEncodable(answers);
    AnswersAreRecords(answers);
    PacketHolds(false, AnswersBytes(answers));
    DecodeEncode(Reply(answers), 8, AsWrites(answers));
  }

  lemma PacketHolds(pr: bool, body: Bytes)
    ensures var b := Header(pr) + body;
            IsEtherbone(b) && !IsProbe(b) && Stored(b, 8, body) && |b| == 8 + |body|
  {
    var h := Header(pr);
    var b := h + body;
    assert b[0] == h[0] && b[1] == h[1] && b[2] == h[2];
    assert b[8..8 + |body|] == body;
    StoredSlice(b, 8, body);
  }

  // ---- truncation -----------------------------------------------------------------------

  /** One executable section and the offset at which its last byte ends. */
  datatype Section =
    | WriteSec(base: u32, data: seq<u32>, end: nat)
    | ReadSec(ret: u32, addrs: seq<u32>, end: nat)

  function Sections(b: Bytes, p: nat): seq<Section>
    decreases |b| - p
  {
    if p + 4 > |b| || WriteEnd(b, p) > |b| then []
    else
      var ws := WriteSections(b, p);
      if ReadEnd(b, p) > |b| then ws
      else ws + ReadSections(b, p) + Sections(b, ReadEnd(b, p))
  }

  function WriteSections(b: Bytes, p: nat): seq<Section>
    requires p + 4 <= |b| && WriteEnd(b, p) <= |b|
  {
    if b[p + 2] == 0 then []
    else [WriteSec(SectionBase(b, p + 4, b[p + 2]), SectionWords(b, p + 4, b[p + 2]), WriteEnd(b, p))]
  }

  function ReadSections(b: Bytes, p: nat): seq<Section>
    requires p + 4 <= |b| && ReadEnd(b, p) <= |b|
  {
    var q := WriteEnd(b, p);
    if b[p + 3] == 0 then []
    else [ReadSec(SectionBase(b, q, b[p + 3]), SectionWords(b, q, b[p + 3]), ReadEnd(b, p))]
  }

  function Play(bus: Bus, o: Outcome, ss: seq<Section>): Outcome {
    if ss == [] then o
    else
      var n := |ss| - 1;
      PlayOne(bus, Play(bus, o, ss[..n]), ss[n])
  }

  function PlayOne(bus: Bus, o: Outcome, s: Section): Outcome {
    match s
    case WriteSec(base, data, _) => Outcome(DoWrites(o.trace, base, data), o.answers)
    case ReadSec(ret, addrs, _) => ExecReads(bus, o, ret, addrs)
  }

  lemma {:induction false} PlayAppend(bus: Bus, o: Outcome, a: seq<Section>, b: seq<Section>)
    ensures Play(bus, o, a + b) == Play(bus, Play(bus, o, a), b)
  {
    if b == [] {
      assert a + b == a;
    } else {
      var n := |b| - 1;
      assert (a + b)[..|a| + n] == a + b[..n];
      PlayAppend(bus, o, a, b[..n]);
    }
  }

  lemma {:induction false} PlayExtends(bus: Bus, o: Outcome, ss: seq<Section>)
    ensures o.trace <= Play(bus, o, ss).trace && o.answers <= Play(bus, o, ss).answers
  {
    if ss != [] {
      var n := |ss| - 1;
      PlayExtends(bus, o, ss[..n]);
      if ss[n].WriteSec? {
        WritesLand(Play(bus, o, ss[..n]).trace, ss[n].base, ss[n].data);
      }
    }
  }

  /** Interpreting the records is playing their sections in order. */
  lemma {:induction false} InterpretIsPlay(bus: Bus, o: Outcome, b: Bytes, p: nat)
    ensures Interpret(bus, o, Decode(b, p)) == Play(bus, o, Sections(b, p))
    decreases |b| - p
  {
    if p + 4 > |b| || WriteEnd(b, p) > |b| {
    } else {
      var rs, ws := Decode(b, p), WriteSections(b, p);
      PlayOneOrNone(bus, o, ws);
      var o1 := Play(bus, o, ws);
      if ReadEnd(b, p) > |b| {
        if rs != [] {
          assert Interpret(bus, o, rs) == Exec(bus, o, rs[0]);
        }
      } else {
        var rd, rest := ReadSections(b, p), Sections(b, ReadEnd(b, p));
        PlayOneOrNone(bus, o1, rd);
        assert rs[1..] == Decode(b, ReadEnd(b, p));
        PlayAppend(bus, o, ws, rd);
        PlayAppend(bus, o, ws + rd, rest);
        assert Play(bus, o1, rd) == Exec(bus, o, rs[0]);
        InterpretIsPlay(bus, Exec(bus, o, rs[0]), b, ReadEnd(b, p));
      }
    }
  }

  lemma PlayOneOrNone(bus: Bus, o: Outcome, ss: seq<Section>)
    requires |ss| <= 1
    ensures Play(bus, o, ss) == if ss == [] then o else PlayOne(bus, o, ss[0])
  {
    if ss != [] {
      assert ss[..0] == [];
    }
  }

  /** `cut` keeps exactly the leading sections of `full` that end by offset `n`. */
  ghost predicate KeepsUpTo(cut: seq<Section>, full: seq<Section>, n: nat) {
    cut <= full && forall k | 0 <= k < |full| :: k < |cut| <==> full[k].end <= n
  }

  lemma KeepsMore(head: seq<Section>, cut: seq<Section>, rest: seq<Section>, n: nat)
    requires KeepsUpTo(cut, rest, n)
    requires forall k | 0 <= k < |head| :: head[k].end <= n
    ensures KeepsUpTo(head + cut, head + rest, n)
  {
    forall k | 0 <= k < |head + rest| ensures k < |head + cut| <==> (head + rest)[k].end <= n {
      if k >= |head| {
        assert (head + rest)[k] == rest[k - |head|];
      }
    }
  }

  ghost predicate EndFrom(ss: seq<Section>, n: nat) {
    forall k | 0 <= k < |ss| :: n <= ss[k].end
  }

  lemma EndFromAppend(a: seq<Section>, b: seq<Section>, n: nat, m: nat)
    requires n <= m && EndFrom(a, n) && EndFrom(b, m)
    ensures EndFrom(a + b, n)
  {
    forall k | 0 <= k < |a + b| ensures n <= (a + b)[k].end {
      if k >= |a| {
        assert (a + b)[k] == b[k - |a|];
      }
    }
  }

  lemma {:induction false} SectionsEndFrom(b: Bytes, p: nat)
    ensures EndFrom(Sections(b, p), if p + 4 <= |b| then WriteEnd(b, p) else p)
    decreases |b| - p
  {
    hide SectionBase, SectionWords;
    if p + 4 <= |b| && ReadEnd(b, p) <= |b| {
      var q := ReadEnd(b, p);
      SectionsEndFrom(b, q);
      EndFromAppend(WriteSections(b, p) + ReadSections(b, p), Sections(b, q),
                    WriteEnd(b, p), if q + 4 <= |b| then WriteEnd(b, q) else q);
    }
  }

  /** Cutting a packet at `n` keeps exactly the sections all of whose bytes are left. */
  lemma {:induction false} CutSections(b: Bytes, n: nat, p: nat)
    requires n <= |b|
    ensures KeepsUpTo(Sections(b[..n], p), Sections(b, p), n)
    decreases |b| - p
  {
    SectionsEndFrom(b, p);
    if p + 4 <= n {
      CutCounts(b, n, p);
      if WriteEnd(b, p) <= n {
        CutWrites(b, n, p);
        if ReadEnd(b, p) <= n {
          CutReads(b, n, p);
          CutSections(b, n, ReadEnd(b, p));
          KeepsMore(WriteSections(b, p) + ReadSections(b, p),
                    Sections(b[..n], ReadEnd(b, p)), Sections(b, ReadEnd(b, p)), n);
        } else {
          CutInReads(b, n, p);
        }
      }
    }
  }

  lemma CutInReads(b: Bytes, n: nat, p: nat)
    requires p + 4 <= n <= |b| && WriteEnd(b, p) <= n < ReadEnd(b, p)
    ensures KeepsUpTo(WriteSections(b, p), Sections(b, p), n)
  {
    hide SectionBase, SectionWords;
    var ws := WriteSections(b, p);
    if ReadEnd(b, p) <= |b| {
      var rest := ReadSections(b, p) + Sections(b, ReadEnd(b, p));
      SectionsEndFrom(b, ReadEnd(b, p));
      EndFromAppend(ReadSections(b, p), Sections(b, ReadEnd(b, p)), n + 1,
                    if ReadEnd(b, p) + 4 <= |b| then WriteEnd(b, ReadEnd(b, p)) else ReadEnd(b, p));
      KeepsMore(ws, [], rest, n);
      assert Sections(b, p) == ws + rest;
      assert ws + [] == ws;
    }
  }

  lemma CutCounts(b: Bytes, n: nat, p: nat)
    requires p + 4 <= n <= |b|
    ensures b[..n][p + 2] == b[p + 2] && b[..n][p + 3] == b[p + 3]
    ensures WriteEnd(b[..n], p) == WriteEnd(b, p) && ReadEnd(b[..n], p) == ReadEnd(b, p)
  {
  }

  lemma CutWrites(b: Bytes, n: nat, p: nat)
    requires p + 4 <= n <= |b| && WriteEnd(b, p) <= n
    ensures WriteEnd(b[..n], p) <= n && WriteSections(b[..n], p) == WriteSections(b, p)
  {
    CutCounts(b, n, p);
    CutSection(b, n, p + 4, b[p + 2]);
  }

  lemma CutReads(b: Bytes, n: nat, p: nat)
    requires p + 4 <= n <= |b| && ReadEnd(b, p) <= n
    ensures ReadEnd(b[..n], p) <= n && ReadSections(b[..n], p) == ReadSections(b, p)
  {
    CutCounts(b, n, p);
    CutSection(b, n, WriteEnd(b, p), b[p + 3]);
  }

  lemma CutSection(b: Bytes, n: nat, p: nat, count: nat)
    requires p + SectionSize(count) <= n <= |b|
    ensures SectionBase(b[..n], p, count) == SectionBase(b, p, count)
    ensures SectionWords(b[..n], p, count) == SectionWords(b, p, count)
  {
    if count > 0 {
      AtPrefix(b, n, p, 4);
      WordsAtPrefix(b, n, p + 4, count);
    }
  }

  /** Cutting any request anywhere leaves a prefix of its bus trace and of its reply. */
  lemma TruncationLaw(bus: Bus, tr: seq<Access>, req: Bytes, n: nat)
    requires n <= |req|
    ensures Handle(bus, tr, req[..n]).trace <= Handle(bus, tr, req).trace
    ensures Handle(bus, tr, req[..n]).reply <= Handle(bus, tr, req).reply
  {
    if IsEtherbone(req) && !IsProbe(req) {
      var o := Outcome(tr, []);
      if n < 8 {
        InterpretIsPlay(bus, o, req, 8);
        PlayExtends(bus, o, Sections(req, 8));
      } else {
        CutRun(bus, o, req, n);
        ReplyPrefix(Interpret(bus, o, Decode(req[..n], 8)).answers, Interpret(bus, o, Decode(req, 8)).answers);
      }
    }
  }

  lemma CutRun(bus: Bus, o: Outcome, req: Bytes, n: nat)
    requires n <= |req|
    ensures var cut, full := Interpret(bus, o, Decode(req[..n], 8)), Interpret(bus, o, Decode(req, 8));
            cut.trace <= full.trace && cut.answers <= full.answers
  {
    var cut, full := Sections(req[..n], 8), Sections(req, 8);
    CutSections(req, n, 8);
    InterpretIsPlay(bus, o, req[..n], 8);
    InterpretIsPlay(bus, o, req, 8);
    PlayPrefix(bus, o, cut, full);
  }

  lemma PlayPrefix(bus: Bus, o: Outcome, cut: seq<Section>, full: seq<Section>)
    requires cut <= full
    ensures Play(bus, o, cut).trace <= Play(bus, o, full).trace
    ensures Play(bus, o, cut).answers <= Play(bus, o, full).answers
  {
    assert full == cut + full[|cut|..];
    PlayAppend(bus, o, cut, full[|cut|..]);
    PlayExtends(bus, Play(bus, o, cut), full[|cut|..]);
  }

  lemma {:induction false} ReplyPrefix(a: seq<Answer>, b: seq<Answer>)
    requires a <= b
    ensures AnswersBytes(a) <= AnswersBytes(b)
    ensures Reply(a) <= Reply(b)
    decreases |b|
  {
    if a == b {
    } else {
      assert a <= b[..|b| - 1];
      ReplyPrefix(a, b[..|b| - 1]);
    }
  }

  // ---- cut-short requests ---------------------------------------------------------------

  /** Every listed section has at least one word to access. */
  ghost predicate AllBusy(ss: seq<Section>) {
    forall k | 0 <= k < |ss| :: if ss[k].WriteSec? then ss[k].data != [] else ss[k].addrs != []
  }

  lemma {:induction false} SectionsAreBusy(b: Bytes, p: nat)
    ensures AllBusy(Sections(b, p))
    decreases |b| - p
  {
    hide SectionBase, SectionWords;
    if p + 4 <= |b| && ReadEnd(b, p) <= |b| {
      SectionsAreBusy(b, ReadEnd(b, p));
      BusyJoin(WriteSections(b, p), ReadSections(b, p));
      BusyJoin(WriteSections(b, p) + ReadSections(b, p), Sections(b, ReadEnd(b, p)));
    }
  }

  lemma BusyJoin(a: seq<Section>, b: seq<Section>)
    requires AllBusy(a) && AllBusy(b)
    ensures AllBusy(a + b)
  {
  }

  lemma {:induction false} BusyPlayGrows(bus: Bus, o: Outcome, ss: seq<Section>)
    requires AllBusy(ss)
    ensures |Play(bus, o, ss).trace| >= |o.trace| + |ss|
  {
    if ss != [] {
      var n := |ss| - 1;
      BusyPlayGrows(bus, o, ss[..n]);
      if ss[n].WriteSec? {
        WritesLand(Play(bus, o, ss[..n]).trace, ss[n].base, ss[n].data);
      }
    }
  }

  /**
   * A request leaves the bus untouched and unanswered exactly when no section of it is
   * complete; being cut short somewhere is not enough, since whatever precedes the cut runs.
   */
  lemma SilentIff(bus: Bus, tr: seq<Access>, req: Bytes)
    requires IsEtherbone(req) && !IsProbe(req)
    ensures Handle(bus, tr, req) == Served(tr, []) <==> Sections(req, 8) == []
  {
    var o := Outcome(tr, []);
    InterpretIsPlay(bus, o, req, 8);
    SectionsAreBusy(req, 8);
    BusyPlayGrows(bus, o, Sections(req, 8));
  }

  /** A record whose read section is cut off still performs its writes. */
  lemma CutReadStillWrites(bus: Bus)
    ensures Handle(bus, [], Header(false) + [0, 0x0f, 1, 1] + Be32(0x10) + Be32(7)) == Served([Wr(0x10, 7)], [])
  {
    var body := [0, 0x0f, 1, 1] + Be32(0x10) + Be32(7);
    var b := Header(false) + body;
    PacketHolds(false, body);
    assert b == Header(false) + [0, 0x0f, 1, 1] + Be32(0x10) + Be32(7);
    StoredSplit(b, 8, [0, 0x0f, 1, 1] + Be32(0x10), Be32(7));
    StoredSplit(b, 8, [0, 0x0f, 1, 1], Be32(0x10));
    StoredAt(b, 8, [0, 0x0f, 1, 1], 2);
    StoredAt(b, 8, [0, 0x0f, 1, 1], 3);
    Be32RoundTrip(b, 12, 0x10);
    Be32RoundTrip(b, 16, 7);
    CutReadDecodes(bus, b);
  }

  lemma CutReadDecodes(bus: Bus, b: Bytes)
    requires |b| == 20 && IsEtherbone(b) && !IsProbe(b) && b[10] == 1 && b[11] == 1
    requires U32At(b, 12) == 0x10 && U32At(b, 16) == 7
    ensures Handle(bus, [], b) == Served([Wr(0x10, 7)], [])
  {
    hide U32At;
    var w := WriteOf(b, 8);
    assert WordsAt(b, 16, 0) == [] && WordsAt(b, 16, 1) == [] + [U32At(b, 16)];
    assert w == Record(0x10, [7], 0, []);
    assert Decode(b, 8) == [w] && [w][1..] == [];
    WritesLand([], 0x10, [7]);
    assert DoWrites([], 0x10, [7]) == [Wr(0x10, 7)];
    assert Interpret(bus, Outcome([], []), [w]) == Outcome([Wr(0x10, 7)], []);
  }
}
