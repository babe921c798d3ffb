/**
 The sending side of the stub (`put_packet`): frame the NUL-terminated
 contents of a buffer, zero the bytes sent, and send again until the
 debugger answers with `+`.
 */
module Sender {
  import opened Hex
  import opened Wire

  /**
   The string held in a NUL-terminated buffer: the bytes before the first
   NUL. It is the one prefix of `buf` that holds no NUL and is followed by one.
   */
  function Payload(buf: seq<Byte>): (p: seq<Byte>)
    requires Nul in buf
    ensures |p| < |buf| && p == buf[..|p|] && buf[|p|] == Nul
    ensures forall i :: 0 <= i < |p| ==> p[i] != Nul
  {
    if buf[0] == Nul then []
    else
      assert Nul in buf[1..];
      [buf[0]] + Payload(buf[1..])
  }

  /** A buffer that holds only NULs. */
  predicate Blank(buf: seq<Byte>) {
    forall i :: 0 <= i < |buf| ==> buf[i] == Nul
  }

  /** The buffer after sending: the bytes of its string are zeroed, the rest kept. */
  function Cleared(buf: seq<Byte>): (r: seq<Byte>)
    requires Nul in buf
    ensures |r| == |buf| && Nul in r
  {
    var n := |Payload(buf)|;
    var r := seq(n, _ => Nul) + buf[n..];
    assert r[n] == Nul;
    r
  }

  /** Clearing zeroes every byte of the string and keeps every byte after it. */
  lemma ClearedBytes(buf: seq<Byte>)
    requires Nul in buf
    ensures forall i :: 0 <= i < |buf| ==> Cleared(buf)[i] == if i < |Payload(buf)| then Nul else buf[i]
  {
  }

  /** A cleared buffer holds the empty string, and clearing it again changes nothing. */
  lemma {:induction false} ClearedEmpty(buf: seq<Byte>)
    requires Nul in buf
    ensures Payload(Cleared(buf)) == []
    ensures Cleared(Cleared(buf)) == Cleared(buf)
  {
    var c := Cleared(buf);
    assert c[0] == Nul;
    assert Payload(c) == [];
    assert Cleared(c) == c;
  }

  /** A buffer whose string is empty is left as it is. */
  lemma {:induction false} ClearedNoop(buf: seq<Byte>)
    requires Nul in buf && buf[0] == Nul
    ensures Cleared(buf) == buf
  {
    assert Payload(buf) == [];
  }

  /** `n` copies of `s`, one after the other. */
  function Repeat(s: seq<Byte>, n: nat): seq<Byte> {
    if n == 0 then [] else s + Repeat(s, n - 1)
  }

  /** The outcome of one `put_packet`: the buffer afterwards, the input left over, the bytes sent, and whether a `+` arrived. */
  datatype Transmission = Transmission(buf: seq<Byte>, rest: seq<Byte>, sent: seq<Byte>, acked: bool)

  /**
   `put_packet`: send the frame of the buffer's string, zeroing its bytes,
   then read one byte; anything but `+` sends the (now cleared) buffer
   again. When the input runs out before a `+`, the call never returns.
   */
  function Transmit(buf: seq<Byte>, rx: seq<Byte>): (t: Transmission)
    requires Nul in buf
    ensures |t.rest| <= |rx| && |t.buf| == |buf| && Nul in t.buf
    ensures t.buf == Cleared(buf)
    decreases |rx|
  {
    var frame := Frame(Payload(buf));
    var cleared := Cleared(buf);
    if rx == [] then Transmission(cleared, [], frame, false)
    else if rx[0] == Plus then Transmission(cleared, rx[1..], frame, true)
    else
      var t := Transmit(cleared, rx[1..]);
      ClearedEmpty(buf);
      Transmission(t.buf, t.rest, frame + t.sent, t.acked)
  }

  /** An outcome with `pre` sent before everything it sent. */
  function After(pre: seq<Byte>, t: Transmission): (r: Transmission)
    ensures r.buf == t.buf && r.rest == t.rest && r.acked == t.acked && r.sent == pre + t.sent
  {
    t.(sent := pre + t.sent)
  }

  /** Sending `a` and then `b` before an outcome is sending `a + b` before it. */
  lemma AfterAfter(a: seq<Byte>, b: seq<Byte>, t: Transmission)
    ensures After(a, After(b, t)) == After(a + b, t)
  {
    ConcatAssoc(a, b, t.sent);
  }

  /** One attempt of `put_packet` and what follows it, by the answer read after the frame. */
  lemma {:induction false} TransmitStep(buf: seq<Byte>, rx: seq<Byte>)
    requires Nul in buf
    ensures Transmit(buf, rx)
         == if rx == [] then Transmission(Cleared(buf), [], Frame(Payload(buf)), false)
            else if rx[0] == Plus then Transmission(Cleared(buf), rx[1..], Frame(Payload(buf)), true)
            else After(Frame(Payload(buf)), Transmit(Cleared(buf), rx[1..]))
  {
  }

  /**
   The debugger's answers up to and including the first `+`: every answer
   before it costs one more frame, and every frame after the first carries
   the empty string, since the first one zeroed the buffer.
   */
  lemma {:induction false} TransmitUntilAck(buf: seq<Byte>, naks: seq<Byte>, rest: seq<Byte>)
    requires Nul in buf && Plus !in naks
    ensures Transmit(buf, naks + [Plus] + rest)
         == Transmission(Cleared(buf), rest, Frame(Payload(buf)) + Repeat(Frame([]), |naks|), true)
    decreases |naks|
  {
    if naks == [] {
      var frame := Frame(Payload(buf));
      assert naks + [Plus] + rest == [Plus] + rest;
      TransmitStep(buf, [Plus] + rest);
      DropFirst([Plus], rest);
      assert Repeat(Frame([]), 0) == [] && frame + [] == frame;
    } else {
      ClearedEmpty(buf);
      TransmitUntilAck(Cleared(buf), naks[1..], rest);
      TransmitNak(buf, naks, rest);
    }
  }

  /** The step of `TransmitUntilAck`: an answer other than `+` costs one more frame `$#00`. */
  lemma {:induction false} TransmitNak(buf: seq<Byte>, naks: seq<Byte>, rest: seq<Byte>)
    requires Nul in buf && naks != [] && naks[0] != Plus
    requires var c := Cleared(buf);
      Transmit(c, naks[1..] + [Plus] + rest)
      == Transmission(Cleared(c), rest, Frame(Payload(c)) + Repeat(Frame([]), |naks| - 1), true)
    ensures Transmit(buf, naks + [Plus] + rest)
         == Transmission(Cleared(buf), rest, Frame(Payload(buf)) + Repeat(Frame([]), |naks|), true)
  {
    var rx := naks + [Plus] + rest;
    var c, empty := Cleared(buf), Frame([]);
    ClearedEmpty(buf);
    ConcatAssoc(naks, [Plus], rest);
    ConcatAssoc(naks[1..], [Plus], rest);
    DropFirst(naks, [Plus] + rest);
    TransmitStep(buf, rx);
    var t := Transmit(c, rx[1..]);
    assert t == Transmission(c, rest, empty + Repeat(empty, |naks| - 1), true);
    assert empty + Repeat(empty, |naks| - 1) == Repeat(empty, |naks|);
  }

  /** Without a `+` the stub sends one frame per answer plus one, and is still waiting at the end. */
  lemma {:induction false} TransmitUnacked(buf: seq<Byte>, naks: seq<Byte>)
    requires Nul in buf && Plus !in naks
    ensures Transmit(buf, naks)
         == Transmission(Cleared(buf), [], Frame(Payload(buf)) + Repeat(Frame([]), |naks|), false)
    decreases |naks|
  {
    if naks != [] {
      var c := Cleared(buf);
      ClearedEmpty(buf);
      assert Plus !in naks[1..];
      TransmitUnacked(c, naks[1..]);
      assert Payload(c) == [];
    }
  }

  /** `put_packet` returns exactly when a `+` arrives. */
  lemma {:induction false} TransmitAcked(buf: seq<Byte>, rx: seq<Byte>)
    requires Nul in buf
    ensures Transmit(buf, rx).acked <==> Plus in rx
    decreases |rx|
  {
    if rx != [] && rx[0] != Plus {
      ClearedEmpty(buf);
      TransmitAcked(Cleared(buf), rx[1..]);
      assert Plus in rx <==> Plus in rx[1..];
    }
  }

  /** Sending an empty string leaves the buffer as it was and sends `$#00`. */
  lemma {:induction false} TransmitEmpty(buf: seq<Byte>, rx: seq<Byte>)
    requires Nul in buf && buf[0] == Nul
    ensures var t := Transmit(buf, rx);
      t.buf == buf && |t.sent| >= 4 && t.sent[..4] == [Dollar, Hash, '0' as int, '0' as int]
  {
    ClearedNoop(buf);
    assert Payload(buf) == [];
    EmptyFrame();
  }
}
