/** Configuration of the serial adapter: a frame of 22 bytes, an acknowledgement that must
    look like one, and retries. */
module AdapterConfig {
  import opened Bytes
  import opened ByteValues

  const HEAD: seq<byte> := [0x49, 0x3B]
  const TAIL: seq<byte> := [0x45, 0x2E]
  const CONFIG_SIZE: nat := 22
  const PAYLOAD_SIZE: nat := 16

  // ---- The frame ----

  function ConfigFrame(funcCode: byte, write: bool, payload: seq<byte>): (frame: seq<byte>)
    ensures |frame| == CONFIG_SIZE
  {
    var kept := if |payload| < PAYLOAD_SIZE then payload else payload[..PAYLOAD_SIZE];
    HEAD + [funcCode, if write then 0x57 else 0x52] + kept + Zeros(PAYLOAD_SIZE - |kept|) + TAIL
  }

  /** The frame as the adapter has to find it, byte by byte. */
  predicate IsConfigFrame(s: seq<byte>, funcCode: byte, write: bool, payload: seq<byte>) {
    && |s| == 22 && s[0] == 0x49 && s[1] == 0x3B && s[2] == funcCode && s[3] == (if write then 0x57 else 0x52)
    && (forall i :: 0 <= i < 16 ==> s[4 + i] == if i < |payload| then payload[i] else 0)
    && s[20] == 0x45 && s[21] == 0x2E
  }

  lemma ConfigFrameIs(funcCode: byte, write: bool, payload: seq<byte>)
    ensures IsConfigFrame(ConfigFrame(funcCode, write, payload), funcCode, write, payload)
  {
  }

  method BuildConfigFrame(cmd: array<byte>, funcCode: byte, write: bool, payload: seq<byte>)
    requires cmd.Length == CONFIG_SIZE
    modifies cmd
    ensures cmd[..] == ConfigFrame(funcCode, write, payload)
    ensures IsConfigFrame(cmd[..], funcCode, write, payload)
  {
    hide IsConfigFrame;
    ConfigFrameIs(funcCode, write, payload);
    forall i | 0 <= i < cmd.Length {
      cmd[i] := 0;
    }
    cmd[0], cmd[1] := HEAD[0], HEAD[1];
    cmd[2] := funcCode;
    cmd[3] := if write then 0x57 else 0x52;
    var size := if |payload| < PAYLOAD_SIZE then |payload| else PAYLOAD_SIZE;
    forall i | 0 <= i < size {
      cmd[4 + i] := payload[i];
    }
    cmd[20], cmd[21] := TAIL[0], TAIL[1];
  }

  // ---- The acknowledgement ----

  predicate EndsInTail(s: seq<byte>) {
    |s| >= 2 && s[|s| - 2..] == TAIL
  }

  predicate LooksLikeConfigAck(s: seq<byte>) {
    |s| >= 4 && s[..2] == HEAD && EndsInTail(s)
  }

  /** What comes in time, up to the first tail, and no more than fits: the shortest such beginning. */
  predicate IsAckRead(out: seq<byte>, answer: seq<byte>, capacity: nat) {
    && out <= answer && |out| <= capacity
    && (|out| == |answer| || |out| == capacity || EndsInTail(out))
    && forall k :: 0 <= k < |out| ==> !EndsInTail(out[..k])
  }

  method ReadConfigAck(answer: seq<byte>, capacity: nat) returns (out: seq<byte>)
    ensures IsAckRead(out, answer, capacity)
  {
    hide EndsInTail;
    out := [];
    NoTailYet();
    while |out| < capacity
      invariant |out| <= |answer| && |out| <= capacity && out == answer[..|out|]
      invariant forall k :: 0 <= k <= |out| ==> !EndsInTail(out[..k])
      decreases capacity - |out|
    {
      if |out| == |answer| {
        return;
      }
      ghost var before := out;
      out := out + [answer[|out|]];
      assert out == answer[..|out|];
      forall k | 0 <= k < |out|
        ensures !EndsInTail(out[..k])
      {
        assert out[..k] == before[..k];
      }
      if EndsInTail(out) {
        return;
      }
      assert out[..|out|] == out;
    }
  }

  lemma NoTailYet()
    ensures !EndsInTail([])
  {
  }

  /** There is one such beginning only, and it looks like an acknowledgement iff the answer
      begins with the head and has a tail in its first 22 bytes: a tail among the echoed
      values ends it early, but does not spoil it. */
  lemma AckIsRecognisedIff(out: seq<byte>, answer: seq<byte>)
    requires IsAckRead(out, answer, CONFIG_SIZE)
    ensures LooksLikeConfigAck(out) <==> HEAD <= answer && exists n :: 4 <= n <= CONFIG_SIZE && HasTailAt(answer, n)
  {
    if LooksLikeConfigAck(out) {
      assert out[..2] == answer[..2];
      assert answer[|out| - 2..|out|] == out[|out| - 2..];
      assert HasTailAt(answer, |out|);
    }
    if HEAD <= answer && exists n :: 4 <= n <= CONFIG_SIZE && HasTailAt(answer, n) {
      var n :| 4 <= n <= CONFIG_SIZE && HasTailAt(answer, n);
      TailStopsTheRead(out, answer, n);
    }
  }

  predicate HasTailAt(answer: seq<byte>, n: nat) {
    2 <= n <= |answer| && answer[n - 2..n] == TAIL
  }

  lemma TailEndsBeginning(out: seq<byte>, answer: seq<byte>, n: nat)
    requires out <= answer && HasTailAt(answer, n) && n <= |out|
    ensures EndsInTail(out[..n])
  {
    assert out[..n] == answer[..n];
    assert out[..n][n - 2..] == answer[n - 2..n];
  }

  /** Head and tail do not overlap. */
  lemma TailIsPastTheHead(out: seq<byte>, answer: seq<byte>)
    requires out <= answer && HEAD <= answer && EndsInTail(out)
    ensures |out| >= 4
  {
    var k := |out| - 2;
    assert out[k] == out[k..][0] == TAIL[0] && out[k] == answer[k];
    assert answer[0] == HEAD[0] && answer[1] == HEAD[1];
  }

  lemma TailStopsTheRead(out: seq<byte>, answer: seq<byte>, n: nat)
    requires IsAckRead(out, answer, CONFIG_SIZE)
    requires HEAD <= answer && 4 <= n <= CONFIG_SIZE && HasTailAt(answer, n)
    ensures LooksLikeConfigAck(out)
  {
    hide EndsInTail;
    assert EndsInTail(out) by {
      if n <= |out| {
        TailEndsBeginning(out, answer, n);
        assert n == |out| ==> out[..n] == out;
      }
    }
    TailIsPastTheHead(out, answer);
    assert out[..2] == answer[..2] == HEAD;
  }

  // ---- Retries ----

  /** One attempt: whether the frame could be written, and what came back in time. */
  datatype Attempt = Attempt(written: bool, answer: seq<byte>)

  predicate Acknowledged(a: Attempt) {
    a.written && HEAD <= a.answer && exists n :: 4 <= n <= CONFIG_SIZE && HasTailAt(a.answer, n)
  }

  /** Whether the last attempt that could be written was answered by anything. */
  predicate LastWasAnswered(attempts: seq<Attempt>) {
    if attempts == [] then false
    else
      var last := attempts[|attempts| - 1];
      if last.written then last.answer != [] else LastWasAnswered(attempts[..|attempts| - 1])
  }

  ghost predicate SomeAcknowledged(attempts: seq<Attempt>) {
    exists a :: a in attempts && Acknowledged(a)
  }

  /** How often the frame is written before it is acknowledged. */
  function TimesWritten(attempts: seq<Attempt>): nat {
    if attempts == [] then 0
    else
      (if attempts[0].written then 1 else 0) + (if Acknowledged(attempts[0]) then 0 else TimesWritten(attempts[1..]))
  }

  /** Every attempt that can be written counts once, up to the one that is acknowledged; none
      is made after that. */
  lemma {:induction false} TimesWrittenIs(attempts: seq<Attempt>, a: Attempt)
    ensures TimesWritten(attempts + [a]) ==
            TimesWritten(attempts) + (if a.written && !SomeAcknowledged(attempts) then 1 else 0)
  {
    hide Acknowledged;
    if attempts == [] {
      assert (attempts + [a])[1..] == [];
    } else {
      var rest := attempts[1..];
      assert (attempts + [a])[1..] == rest + [a];
      TimesWrittenIs(rest, a);
      assert attempts == [attempts[0]] + rest;
    }
  }

  /** The last frame that went out was answered. */
  predicate IsLastWritten(attempts: seq<Attempt>, i: nat)
    requires i < |attempts|
  {
    attempts[i].written && forall j :: i < j < |attempts| ==> !attempts[j].written
  }

  lemma {:induction false} LastWasAnsweredIff(attempts: seq<Attempt>)
    ensures LastWasAnswered(attempts) <==>
            exists i :: 0 <= i < |attempts| && IsLastWritten(attempts, i) && attempts[i].answer != []
  {
    if attempts != [] {
      var n := |attempts| - 1;
      var before := attempts[..n];
      LastWasAnsweredIff(before);
      if attempts[n].written {
        assert IsLastWritten(attempts, n);
      } else {
        forall i | 0 <= i < n
          ensures IsLastWritten(attempts, i) <==> IsLastWritten(before, i)
        {
          assert forall j :: 0 <= j < n ==> before[j] == attempts[j];
        }
      }
    }
  }

  /** A configuration counts as written iff it was acknowledged, or the last frame that went
      out was met with silence, which also holds if none went out. */
  method WriteConfig(attempts: seq<Attempt>) returns (ok: bool, written: nat)
    ensures ok <==> SomeAcknowledged(attempts) || !LastWasAnswered(attempts)
    ensures written == TimesWritten(attempts)
  {
    hide Acknowledged, LooksLikeConfigAck, HasTailAt;
    var size: nat := 0;
    written := 0;
    assert attempts[0..] == attempts;
    for i := 0 to |attempts|
      invariant size > 0 <==> LastWasAnswered(attempts[..i])
      invariant !SomeAcknowledged(attempts[..i])
      invariant TimesWritten(attempts) == written + TimesWritten(attempts[i..])
    {
      var a := attempts[i];
      assert attempts[..i + 1][..i] == attempts[..i] && attempts[i..][1..] == attempts[i + 1..];
      assert attempts[..i + 1] == attempts[..i] + [a];
      if !a.written {
        NotWritten(a);
        continue;
      }
      written := written + 1;
      var response := ReadConfigAck(a.answer, CONFIG_SIZE);
      size := |response|;
      AcknowledgedIff(a, response);
      if LooksLikeConfigAck(response) {
        assert a in attempts;
        return true, written;
      }
    }
    assert attempts[..|attempts|] == attempts && attempts[|attempts|..] == [];
    return size == 0, written;
  }

  lemma NotWritten(a: Attempt)
    requires !a.written
    ensures !Acknowledged(a)
  {
  }

  lemma AcknowledgedIff(a: Attempt, response: seq<byte>)
    requires a.written && IsAckRead(response, a.answer, CONFIG_SIZE)
    ensures LooksLikeConfigAck(response) <==> Acknowledged(a)
    ensures |response| > 0 <==> a.answer != []
  {
    hide LooksLikeConfigAck, HasTailAt;
    AckIsRecognisedIff(response, a.answer);
  }

  /** An adapter that sends the frame back is believed, whatever the frame configures. */
  lemma EchoIsAcknowledged(funcCode: byte, write: bool, payload: seq<byte>)
    ensures Acknowledged(Attempt(true, ConfigFrame(funcCode, write, payload)))
  {
    var frame := ConfigFrame(funcCode, write, payload);
    assert frame[20..22] == TAIL;
    assert HasTailAt(frame, CONFIG_SIZE);
  }

  /** A line to which nothing can be written at all passes for a silent adapter. */
  lemma {:induction false} NothingWrittenPasses(attempts: seq<Attempt>)
    requires forall a :: a in attempts ==> !a.written
    ensures !LastWasAnswered(attempts) && TimesWritten(attempts) == 0
  {
    if attempts != [] {
      NothingWrittenPasses(attempts[..|attempts| - 1]);
      NothingWrittenPasses(attempts[1..]);
    }
  }
}
