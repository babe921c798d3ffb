/**
 The request loop of the stub (`parse_request`) over the whole stub state:
 the inbound and outbound buffers, the saved registers and the two
 directions of the transport.
 */
module Dispatcher {
  import opened Hex
  import opened Wire
  import opened Receiver
  import opened Sender

  /** Everything the request loop reads or changes. */
  datatype Stub = Stub(inBuf: seq<Byte>, outBuf: seq<Byte>, regs: seq<Word>, rx: seq<Byte>, tx: seq<Byte>)

  /** How the loop ended: back to the program (`c`), or waiting for input that never came. */
  datatype Exit = Resumed | Drained

  datatype Served = Served(stub: Stub, exit: Exit)

  /**
   The shape the stub keeps: buffers of at least four bytes whose inbound
   one ends in a NUL, an outbound one holding a NUL, 256 saved registers,
   and a program-counter slot among them.
   */
  predicate Ready(s: Stub, pc: nat) {
    |s.inBuf| >= 4 && s.inBuf[|s.inBuf| - 1] == Nul && Nul in s.outBuf && |s.regs| == 256 && pc < 256
  }

  /** The register update of a `c` command: the hex digits after the `c`, if any, become the saved program counter. */
  function Resume(regs: seq<Word>, pc: nat, args: seq<Byte>): (r: seq<Word>)
    requires pc < |regs|
    ensures |r| == |regs|
    ensures forall i :: 0 <= i < |regs| && i != pc ==> r[i] == regs[i]
    ensures HexRun(args) > 0 ==> r[pc] == HexValue(args[..HexRun(args)]) % 0x1_0000_0000
    ensures HexRun(args) == 0 ==> r == regs
  {
    var n := HexRun(args);
    if n > 0 then regs[pc := HexValue(args[..n]) % 0x1_0000_0000] else regs
  }

  /**
   `parse_request`: receive a packet; `c` resumes the program, any other
   command is answered with the contents of the outbound buffer and the
   loop goes on.
   */
  function Serve(s: Stub, pc: nat): (r: Served)
    requires Ready(s, pc)
    ensures Ready(r.stub, pc)
    ensures |r.stub.inBuf| == |s.inBuf| && |r.stub.outBuf| == |s.outBuf|
    ensures |r.stub.rx| <= |s.rx|
    decreases |s.rx|
  {
    var g := Receive(s.inBuf, s.rx);
    ReceiveKeepsShape(s.inBuf, s.rx);
    var s1 := s.(inBuf := g.buf, rx := g.rest, tx := s.tx + g.sent);
    match g.view
    case None => Served(s1, Drained)
    case Some(v) =>
      if g.buf[v] == Continue then
        Served(s1.(regs := Resume(s.regs, pc, g.buf[v + 1..])), Resumed)
      else
        ReplyReady(s, pc);
        var t := Transmit(s.outBuf, g.rest);
        var s2 := s1.(outBuf := t.buf, rx := t.rest, tx := s1.tx + t.sent);
        if t.acked then Serve(s2, pc) else Served(s2, Drained)
  }

  /** The loop writes no saved register but the program counter. */
  lemma {:induction false} ServeOnlyTouchesPc(s: Stub, pc: nat)
    requires Ready(s, pc)
    ensures forall i :: 0 <= i < 256 && i != pc ==> Serve(s, pc).stub.regs[i] == s.regs[i]
    ensures Serve(s, pc).exit == Drained ==> Serve(s, pc).stub.regs == s.regs
    decreases |s.rx|
  {
    var g := Receive(s.inBuf, s.rx);
    if g.view.Some? && g.buf[g.view.value] == Continue {
      ServeContinue(s, pc);
    } else if g.view.Some? && Transmit(s.outBuf, g.rest).acked {
      var t := Transmit(s.outBuf, g.rest);
      ServeReply(s, pc);
      ReplyReady(s, pc);
      ServeOnlyTouchesPc(s.(inBuf := g.buf, outBuf := t.buf, rx := t.rest, tx := s.tx + g.sent + t.sent), pc);
    } else {
      ServeDrained(s, pc);
    }
  }

  /** Nothing writes the outbound buffer, so when it starts zeroed it stays zeroed. */
  lemma {:induction false} ServeKeepsOutZero(s: Stub, pc: nat)
    requires Ready(s, pc) && Blank(s.outBuf)
    ensures Serve(s, pc).stub.outBuf == s.outBuf
    decreases |s.rx|
  {
    var g := Receive(s.inBuf, s.rx);
    assert s.outBuf[0] == Nul;
    ClearedNoop(s.outBuf);
    if g.view.Some? && g.buf[g.view.value] == Continue {
      ServeContinue(s, pc);
    } else if g.view.Some? && Transmit(s.outBuf, g.rest).acked {
      var t := Transmit(s.outBuf, g.rest);
      ServeReply(s, pc);
      ReplyReady(s, pc);
      ServeKeepsOutZero(s.(inBuf := g.buf, outBuf := t.buf, rx := t.rest, tx := s.tx + g.sent + t.sent), pc);
    } else {
      ServeDrained(s, pc);
    }
  }

  /** After a packet and its reply the stub keeps its shape and has consumed input. */
  lemma {:induction false} ReplyReady(s: Stub, pc: nat)
    requires Ready(s, pc) && Receive(s.inBuf, s.rx).view.Some?
    ensures var g := Receive(s.inBuf, s.rx); var t := Transmit(s.outBuf, g.rest);
      var s2 := s.(inBuf := g.buf, outBuf := t.buf, rx := t.rest, tx := s.tx + g.sent + t.sent);
      Ready(s2, pc) && |s2.rx| < |s.rx|
  {
    ReceiveKeepsShape(s.inBuf, s.rx);
    var g := Receive(s.inBuf, s.rx);
    var t := Transmit(s.outBuf, g.rest);
    ReadyAfter(s, pc, g.buf, t.buf, t.rest, s.tx + g.sent + t.sent);
  }

  /** The shape only depends on the buffers, the registers and the program-counter slot. */
  lemma {:induction false} ReadyAfter(s: Stub, pc: nat, inBuf: seq<Byte>, outBuf: seq<Byte>, rx: seq<Byte>, tx: seq<Byte>)
    requires Ready(s, pc) && |inBuf| == |s.inBuf| && inBuf[|inBuf| - 1] == Nul && Nul in outBuf
    ensures Ready(s.(inBuf := inBuf, outBuf := outBuf, rx := rx, tx := tx), pc)
  {
  }

  /** `get_packet` keeps the NUL in the last cell of the inbound buffer. */
  lemma {:induction false} ReceiveKeepsShape(buf: seq<Byte>, rx: seq<Byte>)
    requires |buf| >= 4 && buf[|buf| - 1] == Nul
    ensures var g := Receive(buf, rx); |g.buf| == |buf| && g.buf[|buf| - 1] == Nul
  {
  }

  /**
   The loop ends when the input runs out, either while a packet is awaited
   or while the reply to one waits for its `+`; the registers are not touched.
   */
  lemma {:induction false} ServeDrained(s: Stub, pc: nat)
    requires Ready(s, pc)
    requires var g := Receive(s.inBuf, s.rx);
      g.view.None? || (g.buf[g.view.value] != Continue && !Transmit(s.outBuf, g.rest).acked)
    ensures var g := Receive(s.inBuf, s.rx); var t := Transmit(s.outBuf, g.rest);
      var s1 := s.(inBuf := g.buf, rx := g.rest, tx := s.tx + g.sent);
      Serve(s, pc) == if g.view.None? then Served(s1, Drained)
                      else Served(s1.(outBuf := t.buf, rx := t.rest, tx := s1.tx + t.sent), Drained)
  {
  }

  /** One round of the loop on a `c` command: the registers are updated and the loop ends. */
  lemma {:induction false} ServeContinue(s: Stub, pc: nat)
    requires Ready(s, pc)
    requires var g := Receive(s.inBuf, s.rx); g.view.Some? && g.buf[g.view.value] == Continue
    ensures var g := Receive(s.inBuf, s.rx);
      Serve(s, pc) == Served(s.(inBuf := g.buf, rx := g.rest, tx := s.tx + g.sent,
                                regs := Resume(s.regs, pc, g.buf[g.view.value + 1..])), Resumed)
  {
  }

  /** One round of the loop on any other command whose reply is acknowledged: the loop goes on. */
  lemma {:induction false} ServeReply(s: Stub, pc: nat)
    requires Ready(s, pc)
    requires var g := Receive(s.inBuf, s.rx);
      g.view.Some? && g.buf[g.view.value] != Continue && Transmit(s.outBuf, g.rest).acked
    ensures var g := Receive(s.inBuf, s.rx); var t := Transmit(s.outBuf, g.rest);
      var next := s.(inBuf := g.buf, outBuf := t.buf, rx := t.rest, tx := s.tx + g.sent + t.sent);
      Ready(next, pc) && Serve(s, pc) == Serve(next, pc)
  {
    ReplyReady(s, pc);
  }

  /** A `c` command and its digits, received: the digits follow the `c` up to the NUL. */
  lemma {:induction false} ReceiveContinue(buf: seq<Byte>, noise: seq<Byte>, digits: seq<Byte>, rest: seq<Byte>)
    requires |buf| >= 4 && Dollar !in noise
    requires |digits| >= 1 && AllHex(digits) && |digits| + 1 < |buf| - 1
    ensures var g := Receive(buf, noise + Frame([Continue] + digits) + rest);
      && g.view == Some(0) && g.sent == [Plus] && g.rest == rest && g.buf[0] == Continue
      && HexRun(g.buf[1..]) == |digits| && g.buf[1..][..|digits|] == digits
  {
    var p := [Continue] + digits;
    DigitsPlain(digits);
    assert |p| >= 3 ==> p[2] == digits[1];
    ReceiveCommand(buf, noise, p, rest);
    ContinueArgs(buf, digits);
  }

  /** The inbound buffer after a `c` packet: the `c`, its digits, then the NUL that ends them. */
  lemma {:induction false} ContinueArgs(buf: seq<Byte>, digits: seq<Byte>)
    requires AllHex(digits) && |digits| + 1 < |buf|
    ensures var w := Write(buf, 0, [Continue] + digits)[|digits| + 1 := Nul];
      w[0] == Continue && HexRun(w[1..]) == |digits| && w[1..][..|digits|] == digits
  {
    var p := [Continue] + digits;
    var w := Write(buf, 0, p)[|p| := Nul];
    WriteSlices(buf, 0, p);
    assert w[1..] == digits + [Nul] + w[|p| + 1..];
    HexRunOfDigits(digits, Nul, w[|p| + 1..]);
  }

  /** A `c` followed by hex digits holds no framing byte. */
  lemma {:induction false} DigitsPlain(digits: seq<Byte>)
    requires AllHex(digits)
    ensures Plain([Continue] + digits)
  {
    var p := [Continue] + digits;
    forall i | 0 <= i < |p|
      ensures p[i] != Dollar && p[i] != Hash
    {
      if i > 0 {
        assert p[i] == digits[i - 1];
        GetHexTable(digits[i - 1]);
      }
    }
  }

  /**
   A `c` packet with a correct checksum: the stub acknowledges it, stores
   the 32-bit value of the digits in the program-counter slot and resumes.
   */
  lemma {:induction false} ContinueSetsPc(s: Stub, pc: nat, noise: seq<Byte>, digits: seq<Byte>, rest: seq<Byte>)
    requires Ready(s, pc) && Dollar !in noise
    requires |digits| >= 1 && AllHex(digits) && |digits| + 1 < |s.inBuf| - 1
    requires s.rx == noise + Frame([Continue] + digits) + rest
    ensures Serve(s, pc).exit == Resumed
    ensures Serve(s, pc).stub.regs == s.regs[pc := HexValue(digits) % 0x1_0000_0000]
    ensures Serve(s, pc).stub.tx == s.tx + [Plus]
    ensures Serve(s, pc).stub.rx == rest
  {
    ReceiveContinue(s.inBuf, noise, digits, rest);
    ServeResumed(s, pc, Receive(s.inBuf, s.rx), digits, rest);
  }

  /** A received `c` command with its digits: the loop stores them and ends. */
  lemma {:induction false} ServeResumed(s: Stub, pc: nat, g: Reception, digits: seq<Byte>, rest: seq<Byte>)
    requires Ready(s, pc)
    requires g == Receive(s.inBuf, s.rx)
    requires g.view == Some(0) && g.sent == [Plus] && g.rest == rest && g.buf[0] == Continue
    requires HexRun(g.buf[1..]) == |digits| >= 1 && g.buf[1..][..|digits|] == digits
    ensures Serve(s, pc).exit == Resumed
    ensures Serve(s, pc).stub.regs == s.regs[pc := HexValue(digits) % 0x1_0000_0000]
    ensures Serve(s, pc).stub.tx == s.tx + [Plus]
    ensures Serve(s, pc).stub.rx == rest
  {
    ServeContinue(s, pc);
    assert g.buf[g.view.value + 1..] == g.buf[1..];
    ResumeDigits(s.regs, pc, g.buf[1..], digits);
  }

  /** Arguments that start with `digits` followed by a non-digit set the program counter to their value. */
  lemma {:induction false} ResumeDigits(regs: seq<Word>, pc: nat, args: seq<Byte>, digits: seq<Byte>)
    requires pc < |regs| && HexRun(args) == |digits| >= 1 && args[..|digits|] == digits
    ensures Resume(regs, pc, args) == regs[pc := HexValue(digits) % 0x1_0000_0000]
  {
    var r := Resume(regs, pc, args);
    assert r == regs[pc := HexValue(digits) % 0x1_0000_0000];
  }

  /** Every command but `c` is answered with the empty packet `$#00` while the outbound buffer is zeroed. */
  lemma {:induction false} ReplyIsEmpty(out: seq<Byte>, rx: seq<Byte>)
    requires Nul in out && Blank(out)
    ensures Transmit(out, [Plus] + rx) == Transmission(out, rx, Frame([]), true)
  {
    ClearedNoop(out);
    assert out[0] == Nul;
    assert Payload(out) == [];
    assert ([Plus] + rx)[1..] == rx;
  }

  /**
   Any other command: the stub acknowledges the packet, answers with the
   empty packet `$#00` (the outbound buffer is never filled), and once
   that is acknowledged serves the next packet on the registers unchanged.
   A payload shorter than three bytes leaves index 2 of the buffer as an
   earlier packet left it, and that byte must not be `:`.
   */
  lemma {:induction false} UnknownCommandReply(s: Stub, pc: nat, noise: seq<Byte>, p: seq<Byte>, rest: seq<Byte>)
    requires Ready(s, pc) && Blank(s.outBuf)
    requires Dollar !in noise && Plain(p) && |p| < |s.inBuf| - 1
    requires p != [] ==> p[0] != Continue
    requires |p| >= 3 ==> p[2] != Colon
    requires |p| < 2 ==> s.inBuf[2] != Colon
    requires s.rx == noise + Frame(p) + [Plus] + rest
    ensures var next := s.(inBuf := Write(s.inBuf, 0, p)[|p| := Nul], rx := rest, tx := s.tx + [Plus] + Frame([]));
      Ready(next, pc) && Serve(s, pc) == Serve(next, pc)
  {
    assert s.rx == noise + Frame(p) + ([Plus] + rest);
    ReceiveCommand(s.inBuf, noise, p, [Plus] + rest);
    ServeAnswered(s, pc, Receive(s.inBuf, s.rx), rest);
  }

  /** A received command other than `c`, answered with `$#00` and acknowledged: the loop goes on. */
  lemma {:induction false} ServeAnswered(s: Stub, pc: nat, g: Reception, rest: seq<Byte>)
    requires Ready(s, pc) && Blank(s.outBuf)
    requires g == Receive(s.inBuf, s.rx)
    requires g.view == Some(0) && g.buf[0] != Continue && g.sent == [Plus] && g.rest == [Plus] + rest
    ensures var next := s.(inBuf := g.buf, rx := rest, tx := s.tx + [Plus] + Frame([]));
      Ready(next, pc) && Serve(s, pc) == Serve(next, pc)
  {
    ReceiveKeepsShape(s.inBuf, s.rx);
    ReplyIsEmpty(s.outBuf, rest);
    ServeReply(s, pc);
    assert s.tx + g.sent + Frame([]) == s.tx + [Plus] + Frame([]);
  }

  /**
   A packet without `:` at index 2 of the buffer it leaves behind, received:
   one `+` and the view starts at index 0. For a payload shorter than three
   bytes that index still holds the byte of an earlier packet.
   */
  lemma {:induction false} ReceiveCommand(buf: seq<Byte>, noise: seq<Byte>, p: seq<Byte>, rest: seq<Byte>)
    requires |buf| >= 4 && Dollar !in noise && Plain(p) && |p| < |buf| - 1
    requires |p| >= 3 ==> p[2] != Colon
    requires |p| < 2 ==> buf[2] != Colon
    ensures var g := Receive(buf, noise + Frame(p) + rest);
      && g.view == Some(0) && g.sent == [Plus] && g.rest == rest
      && g.buf == Write(buf, 0, p)[|p| := Nul]
      && g.buf[0] == (if p == [] then Nul else p[0])
  {
    RoundTrip(buf, noise, p, rest);
    var g := Receive(buf, noise + Frame(p) + rest);
    WriteSlices(buf, 0, p);
    assert g.buf[..|p|] == p;
    assert g.buf[2] != Colon by {
      if |p| < 2 {
        assert g.buf[2] == Write(buf, 0, p)[|p|..][2 - |p|];
      } else if |p| == 2 {
        assert g.buf[2] == Nul;
      } else {
        assert g.buf[2] == p[2];
      }
    }
    if p != [] {
      assert g.buf[0] == g.buf[..|p|][0];
    }
  }

  /**
   The stale read at index 2 can also start the program: a one-byte packet
   received after a sequence-ID packet that left `:` at index 2 and `c` at
   index 3 is acknowledged with an echo of its own byte and the NUL after
   it, dispatched from index 3, and taken for a `c` command.
   */
  lemma {:induction false} StaleContinue(s: Stub, pc: nat, noise: seq<Byte>, z: Byte, rest: seq<Byte>)
    requires Ready(s, pc) && Dollar !in noise && z != Dollar && z != Hash
    requires s.inBuf[2] == Colon && s.inBuf[3] == Continue
    requires s.rx == noise + Frame([z]) + rest
    ensures Serve(s, pc).exit == Resumed
    ensures Serve(s, pc).stub.tx == s.tx + [Plus, z, Nul]
    ensures Serve(s, pc).stub.rx == rest
    ensures Serve(s, pc).stub.regs == Resume(s.regs, pc, s.inBuf[4..])
  {
    RoundTrip(s.inBuf, noise, [z], rest);
    var g := Receive(s.inBuf, s.rx);
    WriteSlices(s.inBuf, 0, [z]);
    assert g.buf[2] == Colon && g.buf[3] == Continue && g.buf[0] == z && g.buf[1] == Nul by {
      assert g.buf[2..] == Write(s.inBuf, 0, [z])[1..][1..];
      assert g.buf[..1] == [z];
    }
    ServeStale(s, pc, g);
  }

  /** The loop after a reception whose view at 3 lands on a `c`: it resumes with the arguments after it. */
  lemma {:induction false} ServeStale(s: Stub, pc: nat, g: Reception)
    requires Ready(s, pc) && g == Receive(s.inBuf, s.rx)
    requires g.view == Some(3) && g.buf[3] == Continue
    requires g.buf[4..] == s.inBuf[4..]
    ensures Serve(s, pc).exit == Resumed
    ensures Serve(s, pc).stub.tx == s.tx + g.sent && Serve(s, pc).stub.rx == g.rest
    ensures Serve(s, pc).stub.regs == Resume(s.regs, pc, s.inBuf[4..])
  {
    ServeContinue(s, pc);
  }
}
