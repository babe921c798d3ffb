/**
 The stub as the firmware runs it: the two static buffers, the saved
 registers and a transport, updated in place by `get_packet`,
 `put_packet` and `parse_request`. Each method is proved against the
 function of the same step in `Receiver`, `Sender` and `Dispatcher`.
 */
module Gdb {
  import opened Hex
  import opened Wire
  import opened Receiver
  import opened Sender
  import opened Dispatcher

  class Session {
    /** `remcom_in_buffer`, of capacity `GDB_BUFMAX`. */
    const inBuf: array<Byte>
    /** `remcom_out_buffer`, of the same capacity. */
    const outBuf: array<Byte>
    /** `sregs`, the saved special registers. */
    const sregs: array<Word>
    /** `DEBUG_PC`, the slot of `sregs` that holds the program counter. */
    const pc: nat
    /** Bytes the debugger has sent that `get_debug_char` has not yet returned. */
    var rx: seq<Byte>
    /** Bytes passed to `put_debug_char` so far. */
    var tx: seq<Byte>

    /**
     The stub's invariant: two distinct buffers of the same capacity, large
     enough for a sequence ID and the byte after it; the last
     cell of the inbound one is the NUL that no packet overwrites; the
     outbound one holds the empty string; 256 saved registers with the
     program-counter slot among them.
     */
    ghost predicate Valid()
      reads this, inBuf, outBuf
    {
      && inBuf.Length >= 4 && outBuf.Length == inBuf.Length
      && inBuf[inBuf.Length - 1] == Nul
      && Blank(outBuf[..])
      && Nul in outBuf[..]
      && sregs.Length == 256 && pc < 256
      && inBuf != outBuf
    }

    /** The whole state as a value. */
    ghost function Abs(): Stub
      reads this, inBuf, outBuf, sregs
    {
      Stub(inBuf[..], outBuf[..], sregs[..], rx, tx)
    }

    lemma AbsReady()
      requires Valid()
      ensures Ready(Abs(), pc)
    {
    }

    /** Static storage starts zeroed; `link` is what the debugger will send. */
    constructor (cap: nat, pcIndex: nat, link: seq<Byte>)
      requires cap >= 4 && pcIndex < 256
      ensures Valid() && fresh(inBuf) && fresh(outBuf) && fresh(sregs)
      ensures inBuf[..] == seq(cap, _ => Nul) && outBuf[..] == seq(cap, _ => Nul)
      ensures sregs[..] == seq(256, _ => 0)
      ensures pc == pcIndex && rx == link && tx == []
    {
      inBuf := new Byte[cap](_ => Nul);
      outBuf := new Byte[cap](_ => Nul);
      sregs := new Word[256](_ => 0);
      pc := pcIndex;
      rx, tx := link, [];
      new;
      assert outBuf[..][0] == Nul;
    }

    /** The wait for `$`: drop every byte up to and including the first `$`. */
    method SkipStart() returns (found: bool)
      modifies this
      ensures SkipToStart(old(rx)) == (if found then Some(rx) else None)
      ensures !found ==> rx == []
      ensures tx == old(tx)
    {
      while rx != [] && rx[0] != Dollar
        invariant SkipToStart(rx) == SkipToStart(old(rx)) && tx == old(tx)
        decreases |rx|
      {
        rx := rx[1..];
      }
      if rx == [] {
        return false;
      }
      rx := rx[1..];
      return true;
    }

    /**
     The collecting loop of `get_packet`: store the payload from index 0 on
     with its running checksum, restart at `$`, stop at `#` or below the last
     cell.
     */
    method CollectPayload() returns (count: nat, sum: Byte, end: End)
      requires inBuf.Length >= 2
      modifies this, inBuf
      ensures Collect(old(inBuf[..]), old(rx), 0, 0) == Scan(inBuf[..], count, sum, rx, end)
      ensures tx == old(tx)
    {
      ghost var s := Collect(inBuf[..], rx, 0, 0);
      count, sum := 0, 0;
      var hash := false;
      while count < inBuf.Length - 1 && !hash
        invariant count < inBuf.Length && tx == old(tx)
        invariant !hash ==> Collect(inBuf[..], rx, count, sum) == s
        invariant hash ==> s == Scan(inBuf[..], count, sum, rx, AtHash)
        decreases |rx|
      {
        if rx == [] {
          return count, sum, OutOfInput;
        }
        var ch := rx[0];
        rx := rx[1..];
        if ch == Dollar {
          count, sum := 0, 0;
        } else if ch == Hash {
          hash := true;
        } else {
          sum := (sum + ch) % 256;
          inBuf[count] := ch;
          count := count + 1;
        }
      }
      end := if hash then AtHash else AtCapacity;
    }

    /**
     `get_packet`: read one packet into `inBuf` and acknowledge it. Returns
     where the request starts in `inBuf`, or None when the transport runs
     dry first.
     */
    method GetPacket() returns (view: Option<nat>)
      requires Valid()
      modifies this, inBuf
      ensures Valid()
      ensures var r := Receive(old(inBuf[..]), old(rx));
        inBuf[..] == r.buf && rx == r.rest && tx == old(tx) + r.sent && view == r.view
    {
      ghost var r := Receive(inBuf[..], rx);
      var found := SkipStart();
      if !found {
        return None;
      }
      var count, sum, end := CollectPayload();
      assert r == Conclude(Scan(inBuf[..], count, sum, rx, end));
      view := FinishPacket(count, sum, end);
    }

    /**
     The end of `get_packet` once collecting stopped: terminate the payload
     with NUL; after a `#`, read the checksum digits, acknowledge, and echo
     the sequence ID when there is one and the checksum matches.
     */
    method FinishPacket(count: nat, sum: Byte, end: End) returns (view: Option<nat>)
      requires inBuf.Length >= 3 && count < inBuf.Length
      requires end == OutOfInput ==> rx == []
      modifies this, inBuf
      ensures var r := Conclude(Scan(old(inBuf[..]), count, sum, old(rx), end));
        inBuf[..] == r.buf && rx == r.rest && tx == old(tx) + r.sent && view == r.view
    {
      if end == OutOfInput {
        return None;
      }
      inBuf[count] := Nul;
      if end == AtCapacity {
        return Some(0);
      }
      if |rx| < 2 {
        rx := [];
        return None;
      }
      var hi := rx[0];
      rx := rx[1..];
      var xmitcsum: Byte := (GetHex(hi) * 16) % 256;
      var lo := rx[0];
      rx := rx[1..];
      AddMod(GetHex(lo), GetHex(hi) * 16);
      xmitcsum := (xmitcsum + GetHex(lo)) % 256;
      assert xmitcsum == XmitSum(hi, lo);
      tx := tx + [Plus];
      if sum == xmitcsum && inBuf[2] == Colon {
        tx := tx + [inBuf[0]];
        tx := tx + [inBuf[1]];
        ConcatAssoc(old(tx), [Plus], [inBuf[0]]);
        ConcatAssoc(old(tx), [Plus] + [inBuf[0]], [inBuf[1]]);
        assert [Plus] + [inBuf[0]] + [inBuf[1]] == [Plus, inBuf[0], inBuf[1]];
        return Some(3);
      }
      return Some(0);
    }

    /**
     One transmission attempt of `put_packet`: `$`, the string in `buf`
     (zeroing each byte once sent), `#` and the two checksum digits.
     */
    method SendFrame(buf: array<Byte>)
      requires Nul in buf[..]
      modifies this, buf
      ensures buf[..] == Cleared(old(buf[..]))
      ensures tx == old(tx) + Frame(Payload(old(buf[..])))
      ensures rx == old(rx)
    {
      ghost var p := Payload(buf[..]);
      tx := tx + [Dollar];
      var sum := SendPayload(buf);
      ConcatAssoc(old(tx), [Dollar], p);
      var digits := ChecksumDigits(sum);
      tx := tx + [Hash];
      ConcatAssoc(old(tx), [Dollar] + p, [Hash]);
      tx := tx + [digits[0]];
      tx := tx + [digits[1]];
      ConcatAssoc(old(tx) + ([Dollar] + p + [Hash]), [digits[0]], [digits[1]]);
      assert [digits[0]] + [digits[1]] == digits;
      ConcatAssoc(old(tx), [Dollar] + p + [Hash], digits);
    }

    /** The payload loop of `put_packet`: send each byte of the string, zero it, and sum it. */
    method SendPayload(buf: array<Byte>) returns (sum: Byte)
      requires Nul in buf[..]
      modifies this, buf
      ensures buf[..] == Cleared(old(buf[..]))
      ensures tx == old(tx) + Payload(old(buf[..])) && sum == Sum(Payload(old(buf[..])))
      ensures rx == old(rx)
    {
      ghost var p := Payload(buf[..]);
      var count: nat := 0;
      sum := 0;
      while buf[count] != Nul
        invariant count <= |p|
        invariant forall i :: 0 <= i < buf.Length ==> buf[i] == if i < count then Nul else old(buf[i])
        invariant tx == old(tx) + p[..count]
        invariant sum == Sum(p[..count]) && rx == old(rx)
        decreases |p| - count
      {
        var ch := buf[count];
        tx := tx + [ch];
        buf[count] := Nul;
        SumSnoc(p[..count], ch);
        assert p[..count + 1] == p[..count] + [ch];
        sum := (sum + ch) % 256;
        count := count + 1;
      }
      assert p[..count] == p;
    }

    /**
     `put_packet`: send the string in `buf` as a frame, zeroing it, until
     the debugger answers `+`. Returns false when the transport runs dry
     while the stub still waits for that answer.
     */
    method PutPacket(buf: array<Byte>) returns (acked: bool)
      requires Nul in buf[..]
      modifies this, buf
      ensures var t := Transmit(old(buf[..]), old(rx));
        buf[..] == t.buf && rx == t.rest && tx == old(tx) + t.sent && acked == t.acked
    {
      ghost var sent := [];
      while true
        invariant Nul in buf[..] && tx == old(tx) + sent
        invariant Transmit(old(buf[..]), old(rx)) == After(sent, Transmit(buf[..], rx))
        decreases |rx|
      {
        ghost var b, r := buf[..], rx;
        TransmitStep(b, r);
        var done;
        done, acked := Attempt(buf);
        ghost var frame := Frame(Payload(b));
        if done {
          ConcatAssoc(old(tx), sent, frame);
          return;
        }
        AfterAfter(sent, frame, Transmit(buf[..], rx));
        ConcatAssoc(old(tx), sent, frame);
        sent := sent + frame;
      }
    }

    /**
     One pass of the loop of `put_packet`: send the frame, then read the
     answer; `done` when it is `+` or when the transport is dry.
     */
    method Attempt(buf: array<Byte>) returns (done: bool, acked: bool)
      requires Nul in buf[..]
      modifies this, buf
      ensures buf[..] == Cleared(old(buf[..])) && tx == old(tx) + Frame(Payload(old(buf[..])))
      ensures rx == if old(rx) == [] then [] else old(rx)[1..]
      ensures done <==> old(rx) == [] || old(rx)[0] == Plus
      ensures acked <==> old(rx) != [] && old(rx)[0] == Plus
    {
      SendFrame(buf);
      if rx == [] {
        return true, false;
      }
      var ch := rx[0];
      rx := rx[1..];
      return ch == Plus, ch == Plus;
    }

    /**
     `parse_request`: serve packets until a `c` command resumes the
     program; every other command is answered with `remcom_out_buffer`.
     */
    method ParseRequest() returns (exit: Exit)
      requires Valid()
      modifies this, inBuf, outBuf, sregs
      ensures Valid()
      ensures Served(Abs(), exit) == Serve(old(Abs()), pc)
    {
      while true
        invariant Valid() && Ready(Abs(), pc)
        invariant Serve(Abs(), pc) == Serve(old(Abs()), pc)
        decreases |rx|
      {
        var done;
        AbsReady();
        done, exit := HandleRequest(Abs());
        if done {
          return;
        }
      }
    }

    /**
     One round of the loop of `parse_request`. When the loop goes on, the
     state left is one that serves the rest of the exchange exactly as the
     state before would, with less input left.
     */
    method HandleRequest(ghost before: Stub) returns (done: bool, exit: Exit)
      requires Valid() && before == Abs() && Ready(before, pc)
      modifies this, inBuf, outBuf, sregs
      ensures Valid() && Ready(Abs(), pc)
      ensures done ==> Served(Abs(), exit) == Serve(before, pc)
      ensures !done ==> Serve(Abs(), pc) == Serve(before, pc) && |rx| < |before.rx|
    {
      var view := GetPacket();
      if view.None? {
        ServeDrained(before, pc);
        AbsReady();
        return true, Drained;
      }
      var v := view.value;
      if inBuf[v] == Continue {
        ResumeRequest(before, v);
        return true, Resumed;
      }
      done := AnswerRequest(before);
      exit := Drained;
    }

    /** The `c` branch of `parse_request`: set the program counter from the arguments and leave. */
    method ResumeRequest(ghost before: Stub, v: nat)
      requires Valid() && Ready(before, pc)
      requires var g := Receive(before.inBuf, before.rx);
        && g.view == Some(v) && g.buf[v] == Continue
        && Abs() == before.(inBuf := g.buf, rx := g.rest, tx := before.tx + g.sent)
      modifies sregs
      ensures Valid() && Ready(Abs(), pc)
      ensures Served(Abs(), Resumed) == Serve(before, pc)
    {
      ServeContinue(before, pc);
      assert v != inBuf.Length - 1;
      StoreProgramCounter(v + 1);
      AbsReady();
    }

    /**
     Any other command: answer with `remcom_out_buffer`. The loop goes on
     (`done` is false) once the answer is acknowledged.
     */
    method AnswerRequest(ghost before: Stub) returns (done: bool)
      requires Valid() && Ready(before, pc)
      requires var g := Receive(before.inBuf, before.rx);
        && g.view.Some? && g.buf[g.view.value] != Continue
        && Abs() == before.(inBuf := g.buf, rx := g.rest, tx := before.tx + g.sent)
      modifies this, outBuf
      ensures Valid() && Ready(Abs(), pc)
      ensures done ==> Served(Abs(), Drained) == Serve(before, pc)
      ensures !done ==> Serve(Abs(), pc) == Serve(before, pc) && |rx| < |before.rx|
    {
      var acked := PutPacket(outBuf);
      ClearedNoop(before.outBuf);
      AbsReady();
      if !acked {
        ServeDrained(before, pc);
        return true;
      }
      ServeReply(before, pc);
      return false;
    }

    /** The `c` command: `hex_to_int` on the bytes from `pos` on; any digits become the saved program counter. */
    method StoreProgramCounter(pos: nat)
      requires Valid() && pos < inBuf.Length
      modifies sregs
      ensures sregs[..] == Resume(old(sregs[..]), pc, inBuf[pos..])
    {
      var n, addr := HexToInt(inBuf, pos);
      if n > 0 {
        sregs[pc] := addr;
      }
    }
  }
}
