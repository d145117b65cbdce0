/** DHCP messages: the BOOTP header, the option list writer and the reply parser. */
module DhcpMessage {
  import opened Bytes
  import opened Frames
  import opened UdpStack
  import Xid

  const OPTIONS: nat := 240
  const MIN_LEN: nat := 300
  const COOKIE: u32 := 0x63825363

  const PAD: byte := 0
  const END: byte := 255
  const HOSTNAME: byte := 12
  const REQUESTED_IP: byte := 50
  const LEASE_TIME: byte := 51
  const MSG_TYPE: byte := 53
  const SERVER_ID: byte := 54
  const PARAM_REQ_LIST: byte := 55
  const CLIENT_ID: byte := 61

  const DISCOVER: byte := 1
  const OFFER: byte := 2
  const REQUEST: byte := 3
  const ACK: byte := 5

  datatype Opt = Opt(code: byte, data: Bytes)

  // ---- the option list as a grammar -----------------------------------------------

  predicate Encodable(o: Opt) {
    o.code != PAD && o.code != END && |o.data| < 0x100
  }

  predicate AllEncodable(os: seq<Opt>) {
    os == [] || (Encodable(os[0]) && AllEncodable(os[1..]))
  }

  function EncodeOpt(o: Opt): (b: Bytes)
    ensures |b| == 2 + |o.data|
  {
    [o.code, |o.data| % 0x100] + o.data
  }

  function EncodeOpts(os: seq<Opt>): Bytes {
    if os == [] then [] else EncodeOpt(os[0]) + EncodeOpts(os[1..])
  }

  /** The options from `off` on: PADs skipped, ending at END or at the first incomplete option. */
  function Scan(b: Bytes, off: nat): seq<Opt>
    decreases |b| - off
  {
    if off >= |b| || b[off] == END then []
    else if b[off] == PAD then Scan(b, off + 1)
    else if off + 1 >= |b| || off + 2 + b[off + 1] as int > |b| then []
    else
      var next := off + 2 + b[off + 1] as int;
      [Opt(b[off], b[off + 2..next])] + Scan(b, next)
  }

  /** Reading written options gives them back, followed by whatever stands behind them. */
  lemma {:induction false} ScanEncoded(b: Bytes, off: nat, os: seq<Opt>)
    requires AllEncodable(os) && Stored(b, off, EncodeOpts(os))
    ensures Scan(b, off) == os + Scan(b, off + |EncodeOpts(os)|)
    decreases |os|
  {
    hide Scan, EncodeOpts, Stored, Encodable, EncodeOpt;
    OptsUnfold(os);
    if os == [] {
      assert os + Scan(b, off) == Scan(b, off);
    } else {
      var o, rest := os[0], EncodeOpts(os[1..]);
      StoredSplit(b, off, EncodeOpt(o), rest);
      ScanOne(b, off, o);
      ScanEncoded(b, off + |EncodeOpt(o)|, os[1..]);
      HeadJoins(os, Scan(b, off + |EncodeOpts(os)|));
    }
  }

  lemma OptsUnfold(os: seq<Opt>)
    ensures EncodeOpts(os) == if os == [] then [] else EncodeOpt(os[0]) + EncodeOpts(os[1..])
  {
  }

  lemma HeadJoins(os: seq<Opt>, tail: seq<Opt>)
    requires os != []
    ensures os + tail == [os[0]] + (os[1..] + tail)
  {
  }

  lemma ScanOne(b: Bytes, off: nat, o: Opt)
    requires Encodable(o) && Stored(b, off, EncodeOpt(o))
    ensures Scan(b, off) == [o] + Scan(b, off + |EncodeOpt(o)|)
  {
    var h: Bytes := [o.code, |o.data| % 0x100];
    StoredSplit(b, off, h, o.data);
    StoredAt(b, off, h, 0);
    StoredAt(b, off, h, 1);
    SliceStored(b, off + 2, o.data);
  }

  /** The value of the last option with this code that is long enough. */
  function LastOf(os: seq<Opt>, code: byte, need: nat): (v: Option<Bytes>)
    ensures v.Some? ==> |v.value| >= need
  {
    if os == [] then None
    else
      var o := os[|os| - 1];
      if o.code == code && |o.data| >= need then Some(o.data) else LastOf(os[..|os| - 1], code, need)
  }

  predicate Qualifies(o: Opt, code: byte, need: nat) {
    o.code == code && |o.data| >= need
  }

  /** Option `k` qualifies and no later one does. */
  ghost predicate LastAt(os: seq<Opt>, code: byte, need: nat, k: nat) {
    k < |os| && Qualifies(os[k], code, need) && forall l | k < l < |os| :: !Qualifies(os[l], code, need)
  }

  /** Nothing is found exactly when no option qualifies; otherwise the value is that of the last one that does. */
  lemma {:induction false} LastOfIsLast(os: seq<Opt>, code: byte, need: nat)
    ensures LastOf(os, code, need) == None <==> forall k | 0 <= k < |os| :: !Qualifies(os[k], code, need)
    ensures forall v :: LastOf(os, code, need) == Some(v) <==> exists k: nat :: LastAt(os, code, need, k) && os[k].data == v
  {
    if os != [] {
      var n := |os| - 1;
      LastOfIsLast(os[..n], code, need);
      LastOfUnfold(os, code, need);
      if Qualifies(os[n], code, need) {
        assert LastAt(os, code, need, n);
        forall k: nat | LastAt(os, code, need, k) ensures k == n {}
      } else {
        forall k: nat ensures LastAt(os, code, need, k) <==> LastAt(os[..n], code, need, k) {
          LastAtPrefix(os, code, need, k);
        }
      }
    }
  }

  lemma LastAtPrefix(os: seq<Opt>, code: byte, need: nat, k: nat)
    requires os != [] && !Qualifies(os[|os| - 1], code, need)
    ensures LastAt(os, code, need, k) <==> LastAt(os[..|os| - 1], code, need, k)
  {
  }

  lemma LastOfUnfold(os: seq<Opt>, code: byte, need: nat)
    requires os != []
    ensures var n := |os| - 1;
            LastOf(os, code, need) == if os[n].code == code && |os[n].data| >= need then Some(os[n].data)
                                      else LastOf(os[..n], code, need)
  {
  }

  // ---- messages ---------------------------------------------------------------------

  datatype Lease = Lease(ip: u32, server: u32, secs: u32)

  predicate IsReply(b: Bytes, xid: u32) {
    |b| >= OPTIONS && b[0] == 2 && U32At(b, 4) == xid && U32At(b, 236) == COOKIE
  }

  function WordOr0(v: Option<Bytes>): u32
    requires v.Some? ==> |v.value| >= 4
  {
    if v.Some? then U32At(v.value, 0) else 0
  }

  /** What a reply of type `want` to transaction `xid` grants. */
  function Reading(b: Bytes, xid: u32, want: byte): Option<Lease> {
    if !IsReply(b, xid) then None
    else
      var os := Scan(b, OPTIONS);
      var kind := LastOf(os, MSG_TYPE, 1);
      if kind.None? || kind.value[0] != want then None
      else Some(Lease(U32At(b, 16), WordOr0(LastOf(os, SERVER_ID, 4)), WordOr0(LastOf(os, LEASE_TIME, 4))))
  }

  function FixedPart(chaddr: Mac, xid: u32): (b: Bytes)
    ensures |b| == OPTIONS
  {
    [1, 1, 6, 0] + Be32(xid) + Be16(0) + Be16(0x8000) + Zeros(16) + chaddr + Zeros(202) + Be32(COOKIE)
  }

  function CommonOpts(chaddr: Mac, kind: byte): seq<Opt> {
    [Opt(MSG_TYPE, [kind]), Opt(PARAM_REQ_LIST, [1, 3, 6]), Opt(HOSTNAME, [0x62, 0x38, 0x30, 0x30, 0x38]),
     Opt(CLIENT_ID, [1] + chaddr)]
  }

  function RequestOpts(chaddr: Mac, ip: u32, server: u32): seq<Opt> {
    CommonOpts(chaddr, REQUEST) + [Opt(REQUESTED_IP, Be32(ip)), Opt(SERVER_ID, Be32(server))]
  }

  /** Fixed part, options, END, and PADs up to the minimum length. */
  function Message(chaddr: Mac, xid: u32, os: seq<Opt>): Bytes {
    var b := FixedPart(chaddr, xid) + EncodeOpts(os) + [END];
    PadTo(b, MIN_LEN)
  }

  function Discover(chaddr: Mac, xid: u32): Bytes {
    Message(chaddr, xid, CommonOpts(chaddr, DISCOVER))
  }

  function Request(chaddr: Mac, xid: u32, ip: u32, server: u32): Bytes {
    Message(chaddr, xid, RequestOpts(chaddr, ip, server))
  }

  lemma {:induction false} EncodeAppend(os: seq<Opt>, o: Opt)
    ensures EncodeOpts(os + [o]) == EncodeOpts(os) + EncodeOpt(o)
  {
    if os == [] {
      assert os + [o] == [o] && [o][1..] == [];
      assert EncodeOpt(o) + EncodeOpts([]) == EncodeOpt(o);
    } else {
      assert (os + [o])[1..] == os[1..] + [o];
      EncodeAppend(os[1..], o);
    }
  }

  lemma {:induction false} EncodableAppend(os: seq<Opt>, o: Opt)
    requires AllEncodable(os) && Encodable(o)
    ensures AllEncodable(os + [o])
  {
    if os != [] {
      assert (os + [o])[1..] == os[1..] + [o];
      EncodableAppend(os[1..], o);
    }
  }

  lemma CommonOptsFit(chaddr: Mac, kind: byte)
    ensures AllEncodable(CommonOpts(chaddr, kind)) && |EncodeOpts(CommonOpts(chaddr, kind))| == 24
  {
    var a, b := Opt(MSG_TYPE, [kind]), Opt(PARAM_REQ_LIST, [1, 3, 6]);
    var c, d := Opt(HOSTNAME, [0x62, 0x38, 0x30, 0x30, 0x38]), Opt(CLIENT_ID, [1] + chaddr);
    EncodableAppend([], a);
    EncodableAppend([a], b);
    EncodableAppend([a, b], c);
    EncodableAppend([a, b, c], d);
    EncodeAppend([], a);
    EncodeAppend([a], b);
    EncodeAppend([a, b], c);
    EncodeAppend([a, b, c], d);
    assert [] + [a] == [a] && [a] + [b] == [a, b] && [a, b] + [c] == [a, b, c];
    assert [a, b, c] + [d] == CommonOpts(chaddr, kind);
  }

  lemma RequestOptsFit(chaddr: Mac, ip: u32, server: u32)
    ensures AllEncodable(RequestOpts(chaddr, ip, server)) && |EncodeOpts(RequestOpts(chaddr, ip, server))| == 36
  {
    hide Be32;
    var cs := CommonOpts(chaddr, REQUEST);
    var p, q := Opt(REQUESTED_IP, Be32(ip)), Opt(SERVER_ID, Be32(server));
    CommonOptsFit(chaddr, REQUEST);
    EncodableAppend(cs, p);
    EncodableAppend(cs + [p], q);
    EncodeAppend(cs, p);
    EncodeAppend(cs + [p], q);
    assert cs + [p] + [q] == RequestOpts(chaddr, ip, server);
  }

  // ---- what a reader finds in a built message ------------------------------------------

  /**
   * A built message is 300 bytes, scanning it returns exactly the options written,
   * its header reads back as a request for `xid`, and no parser takes it for a reply.
   */
  lemma MessageReads(chaddr: Mac, xid: u32, os: seq<Opt>)
    requires AllEncodable(os) && |EncodeOpts(os)| < MIN_LEN - OPTIONS
    ensures var b := Message(chaddr, xid, os);
            && |b| == MIN_LEN && Scan(b, OPTIONS) == os
            && b[..4] == [1, 1, 6, 0] && U32At(b, 4) == xid && U16At(b, 10) == 0x8000
            && b[28..34] == chaddr && U32At(b, 236) == COOKIE
            && forall x: u32, want: byte :: Reading(b, x, want) == None
  {
    hide EncodeOpts, FixedPart, U32At, U16At, Be32, Stored;
    var f, e, b := FixedPart(chaddr, xid), EncodeOpts(os), Message(chaddr, xid, os);
    var n := OPTIONS + |e|;
    assert b == f + e + [END] + Zeros(MIN_LEN - n - 1);
    StoredWhole(f, e, [END] + Zeros(MIN_LEN - n - 1), b);
    ScanEncoded(b, OPTIONS, os);
    assert b[n] == END;
    assert Scan(b, n) == [];
    FixedReads(chaddr, xid, b);
  }

  lemma StoredWhole(f: Bytes, e: Bytes, t: Bytes, b: Bytes)
    requires b == f + e + t
    ensures Stored(b, 0, f) && Stored(b, |f|, e)
  {
    StoredSlice(b, 0, f);
    StoredSlice(b, |f|, e);
  }

  lemma FixedReads(chaddr: Mac, xid: u32, b: Bytes)
    requires Stored(b, 0, FixedPart(chaddr, xid))
    ensures b[..4] == [1, 1, 6, 0] && U32At(b, 4) == xid && U16At(b, 10) == 0x8000
    ensures b[28..34] == chaddr && U32At(b, 236) == COOKIE
  {
    hide Stored, Be32, Be16;
    var h: Bytes := [1, 1, 6, 0];
    var z := Be16(0) + Be16(0x8000) + Zeros(16);
    assert FixedPart(chaddr, xid) == h + Be32(xid) + z + chaddr + Zeros(202) + Be32(COOKIE);
    StoredSplit(b, 0, h + Be32(xid) + z + chaddr + Zeros(202), Be32(COOKIE));
    StoredSplit(b, 0, h + Be32(xid) + z + chaddr, Zeros(202));
    StoredSplit(b, 0, h + Be32(xid) + z, chaddr);
    StoredSplit(b, 0, h + Be32(xid), z);
    StoredSplit(b, 0, h, Be32(xid));
    SliceStored(b, 0, h);
    StoredSplit(b, 8, Be16(0) + Be16(0x8000), Zeros(16));
    StoredSplit(b, 8, Be16(0), Be16(0x8000));
    Be16RoundTrip(b, 10, 0x8000);
    Be32RoundTrip(b, 4, xid);
    Be32RoundTrip(b, 236, COOKIE);
    SliceStored(b, 28, chaddr);
  }

  /** The REQUEST names the address and the server it was built for. */
  lemma RequestReads(chaddr: Mac, xid: u32, ip: u32, server: u32)
    ensures var os := Scan(Request(chaddr, xid, ip, server), OPTIONS);
            && WordOr0(LastOf(os, REQUESTED_IP, 4)) == ip && WordOr0(LastOf(os, SERVER_ID, 4)) == server
            && LastOf(os, MSG_TYPE, 1) == Some([REQUEST])
  {
    var os := RequestOpts(chaddr, ip, server);
    RequestOptsFit(chaddr, ip, server);
    MessageReads(chaddr, xid, os);
    WordBack(ip);
    WordBack(server);
    hide Be32, U32At;
    LastOfUnfold(os, SERVER_ID, 4);
    LastOfUnfold(os, REQUESTED_IP, 4);
    LastOfUnfold(os[..5], REQUESTED_IP, 4);
    LastOfUnfold(os, MSG_TYPE, 1);
    LastOfUnfold(os[..5], MSG_TYPE, 1);
    assert os[..5][..4] == CommonOpts(chaddr, REQUEST);
    CommonKind(chaddr, REQUEST);
  }

  lemma CommonKind(chaddr: Mac, kind: byte)
    ensures LastOf(CommonOpts(chaddr, kind), MSG_TYPE, 1) == Some([kind])
  {
    var os := CommonOpts(chaddr, kind);
    LastOfUnfold(os, MSG_TYPE, 1);
    LastOfUnfold(os[..3], MSG_TYPE, 1);
    LastOfUnfold(os[..3][..2], MSG_TYPE, 1);
    LastOfUnfold(os[..3][..2][..1], MSG_TYPE, 1);
  }

  lemma WordBack(v: u32)
    ensures U32At(Be32(v), 0) == v
  {
    StoredSlice(Be32(v), 0, Be32(v));
    Be32RoundTrip(Be32(v), 0, v);
  }

  /** A reply accepted for one drawn transaction id is accepted for no other within 2^32 draws. */
  lemma ReplyBelongsToOneAttempt(x: u32, i: nat, j: nat, b: Bytes, want: byte, want': byte)
    requires i <= j
    requires Reading(b, Xid.Draw(x, i), want).Some? && Reading(b, Xid.Draw(x, j), want').Some?
    ensures (j - i) % Xid.M == 0
  {
    hide Xid.Draw, Scan, LastOf;
    Xid.DrawsRepeatExactly(x, i, j);
  }

  // ---- the writer ---------------------------------------------------------------------------

  /** Write `s` at `at` where everything since `from` is still zero. */
  method PutOverZeros(a: array<byte>, from: nat, at: nat, s: Bytes)
    requires from <= at && at + |s| <= a.Length
    requires forall k | from <= k < at :: a[k] == 0
    modifies a
    ensures a[..at + |s|] == old(a[..from]) + Zeros(at - from) + s
    ensures SameFrom(a[..], old(a[..]), at + |s|)
  {
    assert a[..at] == a[..from] + Zeros(at - from);
    Put(a, at, s);
  }

  /** build_header: clear the fixed part, then set its fields. */
  method BuildHeader(a: array<byte>, base: nat, chaddr: Mac, xid: u32) returns (off: nat)
    requires base + OPTIONS <= a.Length
    modifies a
    ensures off == base + OPTIONS && a[..off] == old(a[..base]) + FixedPart(chaddr, xid)
    ensures SameFrom(a[..], old(a[..]), off)
  {
    hide Be32, Be16;
    ClearFixed(a, base);
    PutStart(a, base, xid);
    PutOverZeros(a, base + 12, base + 28, chaddr);
    PutOverZeros(a, base + 34, base + 236, Be32(COOKIE));
    off := base + OPTIONS;
  }

  method ClearFixed(a: array<byte>, base: nat)
    requires base + OPTIONS <= a.Length
    modifies a
    ensures a[..base] == old(a[..base]) && SameFrom(a[..], old(a[..]), base + OPTIONS)
    ensures forall k | base <= k < base + OPTIONS :: a[k] == 0
  {
    Put(a, base, Zeros(OPTIONS));
    ghost var done := a[..base + OPTIONS];
    assert a[..base] == done[..base];
    forall k | base <= k < base + OPTIONS ensures a[k] == 0 {
      assert a[k] == done[k] == Zeros(OPTIONS)[k - base];
    }
  }

  /** op, htype, hlen, hops, xid, secs and the broadcast flag. */
  method PutStart(a: array<byte>, base: nat, xid: u32)
    requires base + 12 <= a.Length
    modifies a
    ensures a[..base + 12] == old(a[..base]) + ([1, 1, 6, 0] + Be32(xid) + Be16(0) + Be16(0x8000))
    ensures SameFrom(a[..], old(a[..]), base + 12)
  {
    hide Be32, Be16;
    Put(a, base, [1, 1, 6, 0]);
    Put(a, base + 4, Be32(xid));
    Put(a, base + 8, Be16(0));
    Put(a, base + 10, Be16(0x8000));
  }

  method PutOption(a: array<byte>, off: nat, code: byte, data: Bytes, ghost pre: Bytes, ghost os: seq<Opt>)
    returns (next: nat)
    requires |data| < 0x100 && off + 2 + |data| <= a.Length
    requires a[..off] == pre + EncodeOpts(os)
    modifies a
    ensures next == off + 2 + |data| && a[..next] == pre + EncodeOpts(os + [Opt(code, data)])
    ensures SameFrom(a[..], old(a[..]), next)
  {
    hide EncodeOpts;
    Put(a, off, [code]);
    Put(a, off + 1, [|data|]);
    Put(a, off + 2, data);
    next := off + 2 + |data|;
    EncodeAppend(os, Opt(code, data));
    assert a[..next] == pre + EncodeOpts(os) + EncodeOpt(Opt(code, data));
  }

  method BuildCommonOptions(a: array<byte>, off: nat, chaddr: Mac, kind: byte, ghost pre: Bytes) returns (next: nat)
    requires off + 24 <= a.Length && a[..off] == pre
    modifies a
    ensures next == off + 24 && a[..next] == pre + EncodeOpts(CommonOpts(chaddr, kind))
    ensures SameFrom(a[..], old(a[..]), next)
  {
    hide EncodeOpts;
    ghost var o1, o2 := Opt(MSG_TYPE, [kind]), Opt(PARAM_REQ_LIST, [1, 3, 6]);
    ghost var o3, o4 := Opt(HOSTNAME, [0x62, 0x38, 0x30, 0x30, 0x38]), Opt(CLIENT_ID, [1] + chaddr);
    EncodeNone();
    next := PutOption(a, off, MSG_TYPE, [kind], pre, []);
    next := PutOption(a, next, PARAM_REQ_LIST, [1, 3, 6], pre, [] + [o1]);
    next := PutOption(a, next, HOSTNAME, [0x62, 0x38, 0x30, 0x30, 0x38], pre, [] + [o1] + [o2]);
    next := PutOption(a, next, CLIENT_ID, [1] + chaddr, pre, [] + [o1] + [o2] + [o3]);
    assert [] + [o1] + [o2] + [o3] + [o4] == CommonOpts(chaddr, kind);
  }

  lemma EncodeNone()
    ensures EncodeOpts([]) == []
  {
  }

  method FinishOptions(a: array<byte>, base: nat, off: nat) returns (next: nat)
    requires base <= off < base + MIN_LEN <= a.Length
    modifies a
    ensures next == base + MIN_LEN && a[..next] == old(a[..base]) + PadTo(old(a[base..off]) + [END], MIN_LEN)
    ensures SameFrom(a[..], old(a[..]), next)
  {
    ghost var was := a[..off];
    Put(a, off, [END]);
    next := off + 1;
    while next < base + MIN_LEN
      invariant off < next <= base + MIN_LEN
      invariant a[..next] == was + [END] + Zeros(next - off - 1)
      invariant SameFrom(a[..], old(a[..]), next)
    {
      a[next] := PAD;
      assert a[..next + 1] == a[..next] + [PAD];
      next := next + 1;
    }
    assert was == old(a[..base]) + old(a[base..off]);
  }

  /** dhcp_build_discover, `base` bytes into the transmit slot. */
  method BuildDiscover(a: array<byte>, base: nat, chaddr: Mac, xid: u32) returns (len: nat)
    requires base + MIN_LEN <= a.Length
    modifies a
    ensures len == MIN_LEN && a[base..base + len] == Discover(chaddr, xid)
    ensures a[..base] == old(a[..base]) && SameFrom(a[..], old(a[..]), base + len)
  {
    hide EncodeOpts, FixedPart, CommonOpts;
    ghost var pre := a[..base];
    var off := BuildHeader(a, base, chaddr, xid);
    off := BuildCommonOptions(a, off, chaddr, DISCOVER, pre + FixedPart(chaddr, xid));
    ghost var body := FixedPart(chaddr, xid) + EncodeOpts(CommonOpts(chaddr, DISCOVER));
    assert a[..off] == pre + body;
    assert a[base..off] == a[..off][base..] == body;
    assert a[..base] == a[..off][..base] == pre;
    off := FinishOptions(a, base, off);
    assert a[..off] == pre + Discover(chaddr, xid);
    assert a[base..off] == a[..off][base..];
    assert a[..base] == a[..off][..base];
    len := off - base;
  }

  /** dhcp_build_request, `base` bytes into the transmit slot. */
  method BuildRequest(a: array<byte>, base: nat, chaddr: Mac, xid: u32, ip: u32, server: u32) returns (len: nat)
    requires base + MIN_LEN <= a.Length
    modifies a
    ensures len == MIN_LEN && a[base..base + len] == Request(chaddr, xid, ip, server)
    ensures a[..base] == old(a[..base]) && SameFrom(a[..], old(a[..]), base + len)
  {
    hide EncodeOpts, FixedPart, CommonOpts, Be32;
    ghost var pre, fixed, cs := a[..base], FixedPart(chaddr, xid), CommonOpts(chaddr, REQUEST);
    var off := BuildHeader(a, base, chaddr, xid);
    off := BuildCommonOptions(a, off, chaddr, REQUEST, pre + fixed);
    off := PutOption(a, off, REQUESTED_IP, Be32(ip), pre + fixed, cs);
    off := PutOption(a, off, SERVER_ID, Be32(server), pre + fixed, cs + [Opt(REQUESTED_IP, Be32(ip))]);
    assert cs + [Opt(REQUESTED_IP, Be32(ip))] + [Opt(SERVER_ID, Be32(server))] == RequestOpts(chaddr, ip, server);
    ghost var body := fixed + EncodeOpts(RequestOpts(chaddr, ip, server));
    assert a[..off] == pre + body;
    assert a[base..off] == a[..off][base..] == body;
    assert a[..base] == a[..off][..base] == pre;
    off := FinishOptions(a, base, off);
    assert a[..off] == pre + Request(chaddr, xid, ip, server);
    assert a[base..off] == a[..off][base..];
    assert a[..base] == a[..off][..base];
    len := off - base;
  }

  // ---- the parser -----------------------------------------------------------------------------

  /** parse_reply reads only the first `len` bytes and equals the declarative reading. */
  method ParseReply(buf: Bytes, len: nat, xid: u32, want: byte) returns (r: Option<Lease>)
    requires len <= |buf|
    ensures r == Reading(buf[..len], xid, want)
  {
    hide U32At, LastOf;
    ghost var b := buf[..len];
    if len < OPTIONS {
      return None;
    }
    HeaderAgrees(buf, len);
    if buf[0] != 2 || U32At(buf, 4) != xid || U32At(buf, 236) != COOKIE {
      return None;
    }
    var kind, server, secs := ScanLoop(buf, len);
    if kind != want {
      return None;
    }
    return Some(Lease(U32At(buf, 16), server, secs));
  }

  lemma HeaderAgrees(buf: Bytes, len: nat)
    requires OPTIONS <= len <= |buf|
    ensures buf[..len][0] == buf[0]
    ensures U32At(buf[..len], 4) == U32At(buf, 4) && U32At(buf[..len], 16) == U32At(buf, 16)
    ensures U32At(buf[..len], 236) == U32At(buf, 236)
  {
    AtPrefix(buf, len, 4, 4);
    AtPrefix(buf, len, 16, 4);
    AtPrefix(buf, len, 236, 4);
  }

  /** The message type, or -1 when none was seen. */
  function KindOf(v: Option<Bytes>): int
    requires v.Some? ==> |v.value| >= 1
  {
    if v.Some? then v.value[0] else -1
  }

  /** The captured variables hold the last adequate values of the options seen. */
  ghost predicate Captured(os: seq<Opt>, kind: int, server: u32, secs: u32) {
    && kind == KindOf(LastOf(os, MSG_TYPE, 1))
    && server == WordOr0(LastOf(os, SERVER_ID, 4)) && secs == WordOr0(LastOf(os, LEASE_TIME, 4))
  }

  method ScanLoop(buf: Bytes, len: nat) returns (kind: int, server: u32, secs: u32)
    requires OPTIONS <= len <= |buf|
    ensures Captured(Scan(buf[..len], OPTIONS), kind, server, secs)
  {
    hide Scan, Captured;
    ghost var b, seen := buf[..len], [];
    kind, server, secs := -1, 0, 0;
    var off := OPTIONS;
    NothingSeen();
    while off < len
      invariant OPTIONS <= off <= len
      invariant Scan(b, OPTIONS) == seen + Scan(b, off)
      invariant Captured(seen, kind, server, secs)
      decreases len - off
    {
      ScanUnfold(b, off);
      assert seen + [] == seen;
      var code := buf[off];
      off := off + 1;
      if code == END {
        break;
      }
      if code == PAD {
        continue;
      }
      if off >= len {
        break;
      }
      var olen: int := buf[off];
      off := off + 1;
      if off + olen > len {
        break;
      }
      ghost var o := Opt(code, b[off..off + olen]);
      assert b[off..off + olen] == buf[off..off + olen];
      kind, server, secs := Capture(buf, off, code, olen, kind, server, secs, seen);
      off := off + olen;
      assert seen + ([o] + Scan(b, off)) == seen + [o] + Scan(b, off);
      seen := seen + [o];
    }
    ScanUnfold(b, len);
    assert seen + [] == seen;
    assert Scan(b, OPTIONS) == seen;
  }

  /** The switch on one option's code. */
  method Capture(buf: Bytes, off: nat, code: byte, olen: nat, kind0: int, server0: u32, secs0: u32, ghost seen: seq<Opt>)
    returns (kind: int, server: u32, secs: u32)
    requires off + olen <= |buf| && Captured(seen, kind0, server0, secs0)
    ensures Captured(seen + [Opt(code, buf[off..off + olen])], kind, server, secs)
  {
    hide LastOf, U32At;
    SeeOne(seen, Opt(code, buf[off..off + olen]), buf, off);
    kind, server, secs := kind0, server0, secs0;
    if code == MSG_TYPE {
      if olen >= 1 {
        kind := buf[off];
      }
    } else if code == SERVER_ID {
      if olen >= 4 {
        server := U32At(buf, off);
      }
    } else if code == LEASE_TIME {
      if olen >= 4 {
        secs := U32At(buf, off);
      }
    }
  }

  lemma NothingSeen()
    ensures Captured([], -1, 0, 0)
  {
  }

  lemma ScanUnfold(b: Bytes, off: nat)
    ensures off >= |b| || b[off] == END ==> Scan(b, off) == []
    ensures off < |b| && b[off] == PAD ==> Scan(b, off) == Scan(b, off + 1)
    ensures off < |b| && b[off] != PAD && (off + 1 >= |b| || off + 2 + b[off + 1] as int > |b|) ==> Scan(b, off) == []
    ensures off + 1 < |b| && b[off] != END && b[off] != PAD && off + 2 + b[off + 1] as int <= |b| ==>
              var next := off + 2 + b[off + 1] as int;
              Scan(b, off) == [Opt(b[off], b[off + 2..next])] + Scan(b, next)
  {
  }

  lemma SeeOne(seen: seq<Opt>, o: Opt, buf: Bytes, off: nat)
    requires off + |o.data| <= |buf| && o.data == buf[off..off + |o.data|]
    ensures LastOf(seen + [o], MSG_TYPE, 1) ==
              if o.code == MSG_TYPE && |o.data| >= 1 then Some(o.data) else LastOf(seen, MSG_TYPE, 1)
    ensures LastOf(seen + [o], SERVER_ID, 4) ==
              if o.code == SERVER_ID && |o.data| >= 4 then Some(o.data) else LastOf(seen, SERVER_ID, 4)
    ensures LastOf(seen + [o], LEASE_TIME, 4) ==
              if o.code == LEASE_TIME && |o.data| >= 4 then Some(o.data) else LastOf(seen, LEASE_TIME, 4)
    ensures |o.data| >= 1 ==> o.data[0] == buf[off]
    ensures |o.data| >= 4 ==> U32At(o.data, 0) == U32At(buf, off)
  {
    assert (seen + [o])[..|seen|] == seen;
    if |o.data| >= 4 {
      assert forall k | 0 <= k < 4 :: o.data[k] == buf[off + k];
      AtShift(o.data, buf, off, 4);
    }
  }

  lemma {:induction false} AtShift(s: Bytes, b: Bytes, off: nat, n: nat)
    requires n <= |s| && off + n <= |b| && forall k | 0 <= k < n :: s[k] == b[off + k]
    ensures At(s, 0, n) == At(b, off, n)
    decreases n
  {
    if n > 0 {
      AtShift(s, b, off, n - 1);
    }
  }
}
