/**
 What `get_packet` does, as functions of the inbound buffer and of the bytes
 the transport still has to deliver: skip to `$`, collect the payload with
 its running checksum (restarting at every `$`), terminate it with NUL,
 read and compare the two checksum digits, acknowledge, and echo a sequence
 ID. A transport that runs dry is an outcome of its own (`view == None`).
 */
module Receiver {
  import opened Hex
  import opened Wire

  /**
   The wait for the start character: the bytes after the first `$`, or None
   when the input holds no `$`.
   */
  function SkipToStart(rx: seq<Byte>): (r: Option<seq<Byte>>)
    ensures r.Some? ==> |r.value| < |rx|
  {
    if rx == [] then None
    else if rx[0] == Dollar then Some(rx[1..])
    else SkipToStart(rx[1..])
  }

  /**
   What the wait for `$` drops: everything when the input holds no `$`, and
   otherwise exactly the bytes up to and including the first `$`.
   */
  lemma {:induction false} SkipToStartSplit(rx: seq<Byte>)
    ensures SkipToStart(rx).None? <==> Dollar !in rx
    ensures var r := SkipToStart(rx); r.Some? ==>
      && rx[|rx| - |r.value| - 1] == Dollar && Dollar !in rx[..|rx| - |r.value| - 1]
      && r.value == rx[|rx| - |r.value|..]
    decreases |rx|
  {
    if rx != [] && rx[0] != Dollar {
      SkipToStartSplit(rx[1..]);
      var r := SkipToStart(rx);
      assert Dollar in rx <==> Dollar in rx[1..] by {
        assert rx == [rx[0]] + rx[1..];
      }
      if r.Some? {
        assert rx[1..][..|rx| - 1 - |r.value| - 1] == rx[1..|rx| - |r.value| - 1];
        assert rx[..|rx| - |r.value| - 1] == [rx[0]] + rx[1..|rx| - |r.value| - 1];
      }
    }
  }

  /** Noise without a `$` is skipped; the first `$` starts the packet. */
  lemma {:induction false} SkipNoise(noise: seq<Byte>, r: seq<Byte>)
    requires Dollar !in noise
    ensures SkipToStart(noise + [Dollar] + r) == Some(r)
  {
    if noise != [] {
      assert (noise + [Dollar] + r)[1..] == noise[1..] + [Dollar] + r;
      SkipNoise(noise[1..], r);
    }
  }

  /** Why collecting stopped. */
  datatype End = AtHash | AtCapacity | OutOfInput

  /** The state of the collecting loop when it stops. */
  datatype Scan = Scan(buf: seq<Byte>, count: nat, sum: Byte, rest: seq<Byte>, end: End)

  /** `buf` with `p` written from index `at` on. */
  function Write(buf: seq<Byte>, at: nat, p: seq<Byte>): (r: seq<Byte>)
    requires at + |p| <= |buf|
    ensures |r| == |buf|
  {
    buf[..at] + p + buf[at + |p|..]
  }

  /** What `Write` leaves before, at and after the bytes it writes. */
  lemma {:induction false} WriteSlices(buf: seq<Byte>, at: nat, p: seq<Byte>)
    requires at + |p| <= |buf|
    ensures var r := Write(buf, at, p);
      r[..at] == buf[..at] && r[at..at + |p|] == p && r[at + |p|..] == buf[at + |p|..]
  {
  }

  /** Writing the first byte, then the others after it, writes them all. */
  lemma {:induction false} WriteStep(buf: seq<Byte>, at: nat, p: seq<Byte>)
    requires p != [] && at + |p| <= |buf|
    ensures Write(buf[at := p[0]], at + 1, p[1..]) == Write(buf, at, p)
  {
    var l, r := Write(buf[at := p[0]], at + 1, p[1..]), Write(buf, at, p);
    WriteSlices(buf[at := p[0]], at + 1, p[1..]);
    WriteSlices(buf, at, p);
    forall i | 0 <= i < |buf|
      ensures l[i] == r[i]
    {
      if i < at {
        assert l[i] == l[..at + 1][i];
      } else if i == at {
        assert l[i] == l[..at + 1][i];
        assert r[i] == r[at..at + |p|][0];
      } else if i < at + |p| {
        assert l[i] == l[at + 1..at + |p|][i - at - 1];
        assert r[i] == r[at..at + |p|][i - at];
      } else {
        assert l[i] == l[at + |p|..][i - at - |p|];
        assert r[i] == r[at + |p|..][i - at - |p|];
      }
    }
  }

  /**
   The collecting loop: while `count < |buf| - 1`, read a byte; `$` restarts
   with an empty payload, `#` ends it, any other byte is stored at `count`
   and added to the running checksum. The last cell of the buffer is never
   written, and collecting stops at capacity exactly when `count` reaches it.
   */
  function Collect(buf: seq<Byte>, rx: seq<Byte>, count: nat, sum: Byte): (r: Scan)
    requires count < |buf|
    ensures |r.buf| == |buf| && r.count < |buf|
    ensures r.buf[|buf| - 1] == buf[|buf| - 1]
    ensures |r.rest| <= |rx|
    ensures r.end == AtHash ==> |r.rest| < |rx|
    ensures r.end == OutOfInput ==> r.rest == []
    ensures r.end == AtCapacity <==> r.count == |buf| - 1
    decreases |rx|
  {
    if count >= |buf| - 1 then Scan(buf, count, sum, rx, AtCapacity)
    else if rx == [] then Scan(buf, count, sum, [], OutOfInput)
    else if rx[0] == Dollar then Collect(buf, rx[1..], 0, 0)
    else if rx[0] == Hash then Scan(buf, count, sum, rx[1..], AtHash)
    else Collect(buf[count := rx[0]], rx[1..], count + 1, (sum + rx[0]) % 256)
  }

  /**
   Bytes without `$` or `#` that fit below capacity are stored one after
   the other and summed into the checksum.
   */
  lemma {:induction false} CollectPlain(buf: seq<Byte>, p: seq<Byte>, rest: seq<Byte>, count: nat, sum: Byte)
    requires count + |p| < |buf|
    requires Plain(p)
    decreases |p|
    ensures Collect(buf, p + rest, count, sum)
         == Collect(Write(buf, count, p), rest, count + |p|, (sum + Sum(p)) % 256)
  {
    if p == [] {
      CollectNothing(buf, p, rest, count, sum);
    } else {
      assert Plain(p[1..]);
      CollectPlain(buf[count := p[0]], p[1..], rest, count + 1, (sum + p[0]) % 256);
      CollectPlainCons(buf, p, rest, count, sum);
    }
  }

  /** The base case of `CollectPlain`: nothing to store. */
  lemma {:induction false} CollectNothing(buf: seq<Byte>, p: seq<Byte>, rest: seq<Byte>, count: nat, sum: Byte)
    requires p == [] && count < |buf|
    ensures Collect(buf, p + rest, count, sum)
         == Collect(Write(buf, count, p), rest, count + |p|, (sum + Sum(p)) % 256)
  {
    var w, s := Write(buf, count, p), (sum + Sum(p)) % 256;
    assert w == buf && p + rest == rest && s == sum && count + |p| == count;
    CollectArgs(buf, w, rest, count, count + |p|, sum, s);
  }

  /** The inductive step of `CollectPlain`: store the first byte, then the others. */
  lemma {:induction false} CollectPlainCons(buf: seq<Byte>, p: seq<Byte>, rest: seq<Byte>, count: nat, sum: Byte)
    requires p != [] && count + |p| < |buf|
    requires p[0] != Dollar && p[0] != Hash
    requires var next, sum' := buf[count := p[0]], (sum + p[0]) % 256;
      Collect(next, p[1..] + rest, count + 1, sum')
      == Collect(Write(next, count + 1, p[1..]), rest, count + 1 + |p[1..]|, (sum' + Sum(p[1..])) % 256)
    ensures Collect(buf, p + rest, count, sum)
         == Collect(Write(buf, count, p), rest, count + |p|, (sum + Sum(p)) % 256)
  {
    var next, sum' := buf[count := p[0]], (sum + p[0]) % 256;
    CollectStore(buf, p, rest, count, sum);
    WriteStep(buf, count, p);
    SumCons(sum, p);
    CollectArgs(Write(next, count + 1, p[1..]), Write(buf, count, p), rest,
                count + 1 + |p[1..]|, count + |p|, (sum' + Sum(p[1..])) % 256, (sum + Sum(p)) % 256);
  }

  /** `Collect` applied to equal arguments. */
  lemma {:induction false} CollectArgs(b1: seq<Byte>, b2: seq<Byte>, rx: seq<Byte>, c1: nat, c2: nat, s1: Byte, s2: Byte)
    requires b1 == b2 && c1 == c2 && s1 == s2 && c1 < |b1|
    ensures Collect(b1, rx, c1, s1) == Collect(b2, rx, c2, s2)
  {
  }

  /** A first byte other than `$` or `#` below capacity is stored and summed. */
  lemma {:induction false} CollectStore(buf: seq<Byte>, p: seq<Byte>, rest: seq<Byte>, count: nat, sum: Byte)
    requires p != [] && count + 1 < |buf| && p[0] != Dollar && p[0] != Hash
    ensures Collect(buf, p + rest, count, sum) == Collect(buf[count := p[0]], p[1..] + rest, count + 1, (sum + p[0]) % 256)
  {
    DropFirst(p, rest);
  }

  /**
   The outcome of one `get_packet`: the inbound buffer afterwards, the
   payload length and running checksum, the input left over, the bytes
   written to the transport, and where the returned view starts (None when
   the input ran out before the call could return).
   */
  datatype Reception = Reception(buf: seq<Byte>, count: nat, sum: Byte, rest: seq<Byte>, sent: seq<Byte>, view: Option<nat>)

  /**
   The end of `get_packet` once collecting stopped: write the NUL after the
   payload; after a `#`, read the two checksum digits, acknowledge with
   `+`, and on a match with `:` at index 2 echo the sequence ID and return
   the view after it.
   */
  function Conclude(s: Scan): (r: Reception)
    requires 3 <= |s.buf| && s.count < |s.buf|
    requires s.end == OutOfInput ==> s.rest == []
    ensures r.buf == if s.end == OutOfInput then s.buf else s.buf[s.count := 0]
    ensures r.sent != [] <==> s.end == AtHash && |s.rest| >= 2
    ensures r.sent != [] ==> r.sent[0] == Plus && r.rest == s.rest[2..]
    ensures r.view == Some(3) <==> |r.sent| == 3
  {
    if s.end == OutOfInput then Reception(s.buf, s.count, s.sum, [], [], None)
    else
      var b := s.buf[s.count := 0];
      if s.end == AtCapacity then Reception(b, s.count, s.sum, s.rest, [], Some(0))
      else if |s.rest| < 2 then Reception(b, s.count, s.sum, [], [], None)
      else if XmitSum(s.rest[0], s.rest[1]) != s.sum then Reception(b, s.count, s.sum, s.rest[2..], [Plus], Some(0))
      else if b[2] == Colon then Reception(b, s.count, s.sum, s.rest[2..], [Plus, b[0], b[1]], Some(3))
      else Reception(b, s.count, s.sum, s.rest[2..], [Plus], Some(0))
  }

  /** `get_packet` on an inbound buffer of capacity `|buf|` (`GDB_BUFMAX`). */
  function Receive(buf: seq<Byte>, rx: seq<Byte>): (r: Reception)
    requires |buf| >= 4
    ensures |r.buf| == |buf| && |r.rest| <= |rx|
    ensures r.view.None? ==> r.rest == [] && r.sent == []
    ensures r.view.Some? ==> |r.rest| < |rx|
    ensures r.view.Some? ==> r.count < |buf| && r.buf[r.count] == 0
    ensures r.view.Some? ==> r.view.value == 0 || r.view.value == 3
    ensures buf[|buf| - 1] == 0 ==> r.buf[|r.buf| - 1] == 0
    ensures r.sent == [] || r.sent[0] == Plus
  {
    match SkipToStart(rx)
    case None => Reception(buf, 0, 0, [], [], None)
    case Some(packet) => Conclude(Collect(buf, packet, 0, 0))
  }

  /**
   A well-framed packet after noise: the buffer holds the payload, its NUL
   and the untouched old bytes after them; the running checksum is the sum
   of the payload; exactly one `+` is written whether or not the checksum
   matches; the sequence ID is echoed only on a match with `:` at index 2.
   */
  lemma {:induction false} ReceiveFrame(buf: seq<Byte>, noise: seq<Byte>, p: seq<Byte>, hi: Byte, lo: Byte, rest: seq<Byte>)
    requires |buf| >= 4 && Dollar !in noise && Plain(p) && |p| < |buf| - 1
    ensures var r := Receive(buf, noise + [Dollar] + p + [Hash, hi, lo] + rest);
      var echo := XmitSum(hi, lo) == Sum(p) && r.buf[2] == Colon;
      && r.buf == Write(buf, 0, p)[|p| := 0]
      && r.count == |p| && r.sum == Sum(p) && r.rest == rest
      && r.sent == (if echo then [Plus, r.buf[0], r.buf[1]] else [Plus])
      && r.view == Some(if echo then 3 else 0)
  {
    var start, tail := noise + [Dollar], [Hash, hi, lo] + rest;
    ConcatAssoc(start + p, [Hash, hi, lo], rest);
    ConcatAssoc(start, p, tail);
    ReceiveAfterNoise(buf, noise, p + tail);
    CollectFrame(buf, p, tail);
    assert tail[1..] == [hi, lo] + rest;
    ConcludeHash(Write(buf, 0, p), |p|, Sum(p), hi, lo, rest);
  }

  /** After noise without a `$`, collecting starts right after the first `$`. */
  lemma ReceiveAfterNoise(buf: seq<Byte>, noise: seq<Byte>, packet: seq<Byte>)
    requires |buf| >= 4 && Dollar !in noise
    ensures Receive(buf, noise + [Dollar] + packet) == Conclude(Collect(buf, packet, 0, 0))
  {
    SkipNoise(noise, packet);
  }

  /** The end of `get_packet` after a `#`: two checksum bytes follow. */
  lemma {:induction false} ConcludeHash(buf: seq<Byte>, count: nat, sum: Byte, hi: Byte, lo: Byte, rest: seq<Byte>)
    requires 3 <= |buf| && count < |buf|
    ensures var r := Conclude(Scan(buf, count, sum, [hi, lo] + rest, AtHash));
      var echo := XmitSum(hi, lo) == sum && r.buf[2] == Colon;
      && r.buf == buf[count := 0] && r.count == count && r.sum == sum && r.rest == rest
      && r.sent == (if echo then [Plus, r.buf[0], r.buf[1]] else [Plus])
      && r.view == Some(if echo then 3 else 0)
  {
    assert ([hi, lo] + rest)[2..] == rest;
  }

  /** Collecting a payload without `$` or `#` stops at the `#` after it. */
  lemma {:induction false} CollectFrame(buf: seq<Byte>, p: seq<Byte>, tail: seq<Byte>)
    requires Plain(p) && |p| < |buf| - 1 && tail != [] && tail[0] == Hash
    ensures Collect(buf, p + tail, 0, 0) == Scan(Write(buf, 0, p), |p|, Sum(p), tail[1..], AtHash)
  {
    CollectPlain(buf, p, tail, 0, 0);
    assert (0 + Sum(p)) % 256 == Sum(p);
    CollectHash(Write(buf, 0, p), tail, |p|, Sum(p));
  }

  /** A `#` below capacity ends collecting. */
  lemma {:induction false} CollectHash(buf: seq<Byte>, rx: seq<Byte>, count: nat, sum: Byte)
    requires count + 1 < |buf| && rx != [] && rx[0] == Hash
    ensures Collect(buf, rx, count, sum) == Scan(buf, count, sum, rx[1..], AtHash)
  {
  }

  /**
   Capacity reached without `#`: the first `|buf| - 1` payload bytes fill
   the buffer, the NUL goes into its last cell, no checksum byte is read
   and nothing is written to the transport.
   */
  lemma {:induction false} ReceiveTruncated(buf: seq<Byte>, noise: seq<Byte>, p: seq<Byte>, rest: seq<Byte>)
    requires |buf| >= 4 && Dollar !in noise && Plain(p) && |p| == |buf| - 1
    ensures var r := Receive(buf, noise + [Dollar] + p + rest);
      && r.buf == p + [0] && r.count == |p| && r.sum == Sum(p)
      && r.rest == rest && r.sent == [] && r.view == Some(0)
  {
    assert noise + [Dollar] + p + rest == noise + [Dollar] + (p + rest);
    SkipNoise(noise, p + rest);
    CollectFill(buf, p, rest);
    var w := Write(buf, 0, p);
    assert Receive(buf, noise + [Dollar] + p + rest) == Reception(w[|p| := 0], |p|, Sum(p), rest, [], Some(0));
    assert w[|p| := 0] == p + [0] by {
      assert w[..|p|] == p;
    }
  }

  /** A payload without `$` or `#` that reaches capacity fills the buffer but its last cell. */
  lemma {:induction false} CollectFill(buf: seq<Byte>, p: seq<Byte>, rest: seq<Byte>)
    requires Plain(p) && |p| == |buf| - 1
    ensures Collect(buf, p + rest, 0, 0) == Scan(Write(buf, 0, p), |p|, Sum(p), rest, AtCapacity)
  {
    CollectPlain(buf, p, rest, 0, 0);
    assert (0 + Sum(p)) % 256 == Sum(p);
  }

  /**
   A `$` met while collecting discards what was collected so far: the
   outcome is the one of a packet that starts at that `$`, on the buffer as
   the discarded bytes left it.
   */
  lemma {:induction false} ReceiveResync(buf: seq<Byte>, noise: seq<Byte>, junk: seq<Byte>, q: seq<Byte>)
    requires |buf| >= 4 && Dollar !in noise && Plain(junk) && |junk| < |buf| - 1
    ensures Receive(buf, noise + [Dollar] + junk + [Dollar] + q)
         == Receive(Write(buf, 0, junk), [Dollar] + q)
  {
    var start, again := noise + [Dollar], [Dollar] + q;
    var w, sum := Write(buf, 0, junk), (0 + Sum(junk)) % 256;
    ConcatAssoc(start + junk, [Dollar], q);
    ConcatAssoc(start, junk, again);
    ReceiveAfterNoise(buf, noise, junk + again);
    assert Receive(buf, start + junk + [Dollar] + q) == Conclude(Collect(buf, junk + again, 0, 0));
    CollectPlain(buf, junk, again, 0, 0);
    DropFirst([Dollar], q);
    CollectRestart(w, again, |junk|, sum);
    assert Collect(buf, junk + again, 0, 0) == Collect(w, q, 0, 0);
    assert [] + [Dollar] + q == again;
    ReceiveAfterNoise(w, [], q);
  }

  /** A `$` below capacity restarts collecting from the start of the buffer. */
  lemma CollectRestart(buf: seq<Byte>, rx: seq<Byte>, count: nat, sum: Byte)
    requires count < |buf| - 1 && rx != [] && rx[0] == Dollar
    ensures Collect(buf, rx, count, sum) == Collect(buf, rx[1..], 0, 0)
  {
  }

  /**
   Round trip with the sender: a frame written for a payload without `$`
   or `#` that fits the buffer is received as that payload, with a matching
   checksum.
   */
  lemma {:induction false} RoundTrip(buf: seq<Byte>, noise: seq<Byte>, p: seq<Byte>, rest: seq<Byte>)
    requires |buf| >= 4 && Dollar !in noise && Plain(p) && |p| < |buf| - 1
    ensures var r := Receive(buf, noise + Frame(p) + rest);
      var echo := r.buf[2] == Colon;
      && r.buf == Write(buf, 0, p)[|p| := 0]
      && r.count == |p| && r.buf[..|p|] == p && r.buf[|p|] == 0 && r.rest == rest
      && r.sent == (if echo then [Plus, r.buf[0], r.buf[1]] else [Plus])
      && r.view == Some(if echo then 3 else 0)
  {
    var d := ChecksumDigits(Sum(p));
    assert noise + Frame(p) + rest == noise + [Dollar] + p + [Hash, d[0], d[1]] + rest;
    ReceiveFrame(buf, noise, p, d[0], d[1], rest);
    ChecksumRoundTrip(Sum(p));
  }

  /**
   Sequence IDs: a payload `id0 id1 : body` with a correct checksum is
   acknowledged with `+ id0 id1`, and the view returned starts at the body.
   */
  lemma {:induction false} SequenceIdEcho(buf: seq<Byte>, noise: seq<Byte>, id0: Byte, id1: Byte, body: seq<Byte>, rest: seq<Byte>)
    requires |buf| >= 4 && Dollar !in noise && Plain([id0, id1, Colon] + body) && |body| + 3 < |buf| - 1
    ensures var r := Receive(buf, noise + Frame([id0, id1, Colon] + body) + rest);
      && r.sent == [Plus, id0, id1] && r.view == Some(3) && r.count == |body| + 3
      && r.buf[3..r.count] == body && r.buf[r.count] == 0 && r.rest == rest
  {
    var p := [id0, id1, Colon] + body;
    RoundTrip(buf, noise, p, rest);
    var r := Receive(buf, noise + Frame(p) + rest);
    assert r.buf[..|p|][2] == Colon;
    assert r.buf[3..|p|] == r.buf[..|p|][3..];
  }

  /**
   The sequence-ID test reads `buffer[2]` whatever the payload length: after
   the empty packet `$#00`, a `:` left at index 2 by an earlier packet makes
   the receiver echo the NUL it just wrote and a stale byte, and return the
   view at index 3, past the payload's end.
   */
  lemma {:induction false} StaleSequenceEcho(buf: seq<Byte>, noise: seq<Byte>, rest: seq<Byte>)
    requires |buf| >= 4 && Dollar !in noise && buf[2] == Colon
    ensures var r := Receive(buf, noise + Frame([]) + rest);
      r.count == 0 && r.sent == [Plus, 0, buf[1]] && r.view == Some(3)
  {
    RoundTrip(buf, noise, [], rest);
    assert Write(buf, 0, []) == buf;
  }
}
