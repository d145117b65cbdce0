/**
 * The Etherbone dialect byte by byte: the layout of a packet, what the server makes of
 * every packet, and which packets the host takes for a reply.
 */
module EtherboneLaws {
  import opened Bytes
  import opened Etherbone
  import HostLink

  // ---- layout -------------------------------------------------------------------------

  /** Where the read section of a record starts. */
  function ReadStart(r: Record): nat {
    if r.wdata == [] then 4 else 8 + 4 * |r.wdata|
  }

  /** Flags, byte enable, write count, read count; base and words of each section that is not empty. */
  lemma RecordLayout(r: Record)
    requires Encodable(r)
    ensures var b, q := EncodeRecord(r), ReadStart(r);
            && |b| == q + (if r.raddrs == [] then 0 else 4 + 4 * |r.raddrs|)
            && b[..4] == [0, 0x0f, |r.wdata|, |r.raddrs|]
            && (r.wdata != [] ==> U32At(b, 4) == r.wbase && forall i | 0 <= i < |r.wdata| :: U32At(b, 8 + 4 * i) == r.wdata[i])
            && (r.raddrs != [] ==> U32At(b, q) == r.ret && forall i | 0 <= i < |r.raddrs| :: U32At(b, q + 4 + 4 * i) == r.raddrs[i])
  {
    hide EncodeSection, U32At, Stored;
    var b, w, rd := EncodeRecord(r), EncodeSection(r.wbase, r.wdata), EncodeSection(r.ret, r.raddrs);
    StoredSlice(b, 0, b);
    RecordParts(b, 0, r);
    assert b[..4] == RecordHead(|r.wdata|, |r.raddrs|);
    SectionLayout(b, 4, r.wbase, r.wdata);
    SectionLayout(b, ReadStart(r), r.ret, r.raddrs);
  }

  lemma SectionLayout(b: Bytes, at: nat, base: u32, ws: seq<u32>)
    requires Stored(b, at, EncodeSection(base, ws)) && at + SectionSize(|ws|) <= |b|
    ensures ws != [] ==> U32At(b, at) == base && forall i | 0 <= i < |ws| :: U32At(b, at + 4 + 4 * i) == ws[i]
  {
    hide U32At, Stored;
    if ws != [] {
      StoredSplit(b, at, Be32(base), Flat(ws));
      Be32RoundTrip(b, at, base);
      forall i | 0 <= i < |ws| ensures U32At(b, at + 4 + 4 * i) == ws[i] {
        FlatWord(b, at + 4, ws, i);
      }
    }
  }

  const HEADER: Bytes := [0x4e, 0x6f, 0x10, 0x44, 0, 0, 0, 0]

  lemma PacketBytes(r: Record)
    ensures HostLink.Packet(r) == HEADER + EncodeRecord(r)
  {
  }

  // ---- the server -----------------------------------------------------------------------

  /** Anything without the magic is ignored; a set probe flag alone earns the 12 byte answer. */
  lemma NotARequest(bus: Bus, tr: seq<Access>, b: Bytes)
    ensures |b| < 8 || b[0] != 0x4e || b[1] != 0x6f ==> Handle(bus, tr, b) == Served(tr, [])
    ensures |b| >= 8 && b[0] == 0x4e && b[1] == 0x6f && b[2] % 2 == 1 ==>
              Handle(bus, tr, b) == Served(tr, [0x4e, 0x6f, 0x12, 0x44, 0, 0, 0, 0, 0, 0, 0, 0])
  {
    Be32Bytes(0);
    assert Header(true) + Be32(0) == [0x4e, 0x6f, 0x12, 0x44, 0, 0, 0, 0, 0, 0, 0, 0];
  }

  /** Any header with the magic and no probe flag. */
  predicate RequestHeader(h: Bytes) {
    |h| == 8 && h[0] == 0x4e && h[1] == 0x6f && h[2] % 2 == 0
  }

  /** Record for record: the records of a packet are executed in order, and the answers are written as write records. */
  lemma PacketIsServed(bus: Bus, tr: seq<Access>, h: Bytes, rs: seq<Record>)
    requires RequestHeader(h) && AllEncodable(rs)
    ensures var o := Interpret(bus, Outcome(tr, []), rs);
            Handle(bus, tr, h + EncodeRecords(rs)) ==
              Served(o.trace, if o.answers == [] then [] else HEADER + EncodeRecords(AsWrites(o.answers)))
  {
    hide EncodeRecords, Interpret, Decode, Stored;
    var b := h + EncodeRecords(rs);
    StoredSlice(b, 8, EncodeRecords(rs));
    DecodeEncode(b, 8, rs);
    var o := Interpret(bus, Outcome(tr, []), Decode(b, 8));
    InterpretAnswerable(bus, Outcome(tr, []), b, 8);
    AnswersAreRecords(o.answers);
  }

  /**
   * One record: its writes at base, base + 4, ... in order, then its reads in order, and an
   * answer, if it reads, that carries the return address and what those reads returned.
   */
  lemma RecordIsServed(bus: Bus, tr: seq<Access>, h: Bytes, r: Record)
    requires RequestHeader(h) && Encodable(r)
    ensures var s, n := Handle(bus, tr, h + EncodeRecord(r)), |tr| + |r.wdata|;
            && |s.trace| == n + |r.raddrs| && tr <= s.trace
            && (forall i | 0 <= i < |r.wdata| :: s.trace[|tr| + i] == Wr((r.wbase + 4 * i) % 0x1_0000_0000, r.wdata[i]))
            && (forall j | 0 <= j < |r.raddrs| :: s.trace[n + j] == Rd(r.raddrs[j], bus(s.trace[..n + j], r.raddrs[j])))
            && s.reply == (if r.raddrs == [] then []
                           else HEADER + [0, 0x0f, |r.raddrs|, 0] + Be32(r.ret) + Flat(ValuesFrom(s.trace, n)))
  {
    hide EncodeRecord, Handle, DoWrites, DoReads, ReadVals;
    assert [r][1..] == [];
    OneRecord(r);
    PacketIsServed(bus, tr, h, [r]);
    WritesLand(tr, r.wbase, r.wdata);
    var t := DoWrites(tr, r.wbase, r.wdata);
    var s := Handle(bus, tr, h + EncodeRecord(r));
    OneOutcome(bus, tr, r);
    assert s.trace == DoReads(bus, t, r.raddrs);
    forall j | 0 <= j < |r.raddrs|
      ensures s.trace[|t| + j] == Rd(r.raddrs[j], bus(s.trace[..|t| + j], r.raddrs[j]))
      ensures ReadVals(bus, t, r.raddrs)[j] == s.trace[|t| + j].val
    {
      ReadsAnswer(bus, t, r.raddrs, j);
    }
    assert ReadVals(bus, t, r.raddrs) == ValuesFrom(s.trace, |t|);
    if r.raddrs != [] {
      OneAnswerBytes(r.ret, ReadVals(bus, t, r.raddrs));
    }
  }

  /** The values of the accesses from number `n` on. */
  function ValuesFrom(tr: seq<Access>, n: nat): (vs: seq<u32>)
    requires n <= |tr|
    ensures |vs| == |tr| - n && forall i | 0 <= i < |vs| :: vs[i] == tr[n + i].val
    decreases |tr| - n
  {
    if n == |tr| then [] else [tr[n].val] + ValuesFrom(tr, n + 1)
  }

  lemma OneRecord(r: Record)
    requires Encodable(r)
    ensures AllEncodable([r]) && EncodeRecords([r]) == EncodeRecord(r)
  {
    assert [r][1..] == [];
    EncodeSingle(r);
  }

  lemma OneOutcome(bus: Bus, tr: seq<Access>, r: Record)
    ensures var t := DoWrites(tr, r.wbase, r.wdata);
            Interpret(bus, Outcome(tr, []), [r]) ==
              Outcome(DoReads(bus, t, r.raddrs), if r.raddrs == [] then [] else [Answer(r.ret, ReadVals(bus, t, r.raddrs))])
  {
    hide DoWrites, DoReads, ReadVals;
    assert [r][1..] == [];
    if r.raddrs != [] {
      assert [] + [Answer(r.ret, ReadVals(bus, DoWrites(tr, r.wbase, r.wdata), r.raddrs))]
          == [Answer(r.ret, ReadVals(bus, DoWrites(tr, r.wbase, r.wdata), r.raddrs))];
    } else {
      NoReads(bus, DoWrites(tr, r.wbase, r.wdata));
    }
  }

  lemma NoReads(bus: Bus, tr: seq<Access>)
    ensures DoReads(bus, tr, []) == tr
  {
  }

  lemma OneAnswerBytes(ret: u32, vals: seq<u32>)
    requires 0 < |vals| < 0x100
    ensures HEADER + EncodeRecords(AsWrites([Answer(ret, vals)])) == HEADER + [0, 0x0f, |vals|, 0] + Be32(ret) + Flat(vals)
  {
    hide AnswerBytes, EncodeRecord, EncodeRecords;
    var a := Answer(ret, vals);
    OneWrite(a);
    EncodeSingle(Record(ret, vals, 0, []));
    AnswerIsRecord(a);
    AnswerLayout(a);
  }

  lemma OneWrite(a: Answer)
    ensures AsWrites([a]) == [Record(a.ret, a.vals, 0, [])]
  {
    assert [a][..0] == [];
  }

  lemma AnswerLayout(a: Answer)
    requires |a.vals| < 0x100
    ensures HEADER + AnswerBytes(a) == HEADER + [0, 0x0f, |a.vals|, 0] + Be32(a.ret) + Flat(a.vals)
  {
    hide Be32, Flat;
    var head: Bytes := [0, 0x0f, |a.vals|, 0];
    assert RecordHead(|a.vals|, 0) == head;
    Regroup(HEADER, head, Be32(a.ret), Flat(a.vals));
  }

  lemma Regroup(a: Bytes, b: Bytes, c: Bytes, d: Bytes)
    ensures a + (b + c + d) == a + b + c + d
  {
  }

  // ---- the host ---------------------------------------------------------------------------

  /**
   * The host takes a packet for the reply to `id` exactly when neither probe flag is set
   * and its last record writes to `id`; it takes the words of that record.
   */
  lemma TakenExactly(h: Bytes, rs: seq<Record>, id: u32)
    requires |h| == 8 && AllEncodable(rs)
    ensures HostLink.Accept(h + EncodeRecords(rs), id) ==
              if h[0] == 0x4e && h[1] == 0x6f && h[2] % 4 == 0 && rs != []
                 && rs[|rs| - 1].wdata != [] && rs[|rs| - 1].wbase == id
              then Some(rs[|rs| - 1].wdata) else None
  {
    hide EncodeRecords, Decode, Whole, Stored;
    var b := h + EncodeRecords(rs);
    StoredSlice(b, 8, EncodeRecords(rs));
    DecodeEncode(b, 8, rs);
  }

  /** A packet cut inside a record is never taken. */
  lemma CutIsRefused(h: Bytes, rs: seq<Record>, r: Record, n: nat, id: u32)
    requires |h| == 8 && AllEncodable(rs) && Encodable(r) && 0 < n < |EncodeRecord(r)|
    ensures HostLink.Accept(h + EncodeRecords(rs) + EncodeRecord(r)[..n], id) == None
  {
    hide EncodeRecords, Decode, Whole, Stored, EncodeRecord;
    var b := h + EncodeRecords(rs) + EncodeRecord(r)[..n];
    StoredSlice(b, 8, EncodeRecords(rs));
    StoredSlice(b, 8 + |EncodeRecords(rs)|, EncodeRecord(r)[..n]);
    NotWhole(b, 8, rs, r, n);
  }

  lemma {:induction false} NotWhole(b: Bytes, p: nat, rs: seq<Record>, r: Record, n: nat)
    requires AllEncodable(rs) && Encodable(r) && 0 < n < |EncodeRecord(r)|
    requires Stored(b, p, EncodeRecords(rs)) && |b| == p + |EncodeRecords(rs)| + n
    requires Stored(b, p + |EncodeRecords(rs)|, EncodeRecord(r)[..n])
    ensures !Whole(b, p)
    decreases |rs|
  {
    if rs == [] {
      hide EncodeRecord, Stored;
      CutEnd(b, p, r, n);
    } else {
      hide EncodeRecord, Stored;
      StoredSplit(b, p, EncodeRecord(rs[0]), EncodeRecords(rs[1..]));
      DecodeOne(b, p, rs[0]);
      NotWhole(b, p + |EncodeRecord(rs[0])|, rs[1..], r, n);
    }
  }

  lemma CutEnd(b: Bytes, p: nat, r: Record, n: nat)
    requires Encodable(r) && 0 < n < |EncodeRecord(r)| && Stored(b, p, EncodeRecord(r)[..n]) && |b| == p + n
    ensures p + 4 <= |b| ==> ReadEnd(b, p) > |b|
  {
    hide Stored, EncodeSection;
    if n >= 4 {
      var s := EncodeRecord(r)[..n];
      StoredAt(b, p, s, 2);
      StoredAt(b, p, s, 3);
      assert s[2] == RecordHead(|r.wdata|, |r.raddrs|)[2] && s[3] == RecordHead(|r.wdata|, |r.raddrs|)[3];
    }
  }
}
