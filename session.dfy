/**
 The attempt loop of `main` in icmp.cpp: MAX_ATTEMPTS iterations, each
 building an echo request for its sequence number and classifying what
 `select` returned. The value `select` returns on each attempt is an input;
 the socket calls, timestamps and printed lines are not modelled.
 */
module Session {
  import opened InternetChecksum
  import opened Echo

  /** Number of echo requests a run sends. */
  const MAX_ATTEMPTS: nat := 4

  /** How an attempt ends: `select` failed, the socket became readable, or the wait timed out. */
  datatype Outcome = SelectFailed | Replied | TimedOut

  datatype Attempt = Attempt(sequence: nat, request: IcmpHeader, outcome: Outcome)

  /** What attempt `i` of a run must be, given what `select` returned for it. */
  predicate IsAttempt(order: ByteOrder, pid: int, i: nat, ready: int, a: Attempt)
  {
    && a.sequence == i
    && IsEchoRequest(order, pid, i, a.request)
    && (a.outcome == SelectFailed <==> ready < 0)
    && (a.outcome == Replied <==> ready > 0)
    && (a.outcome == TimedOut <==> ready == 0)
  }

  /**
   Runs the loop at lines 67-102. `ready[i]` is what `select` returned on
   attempt `i`. The loop always completes: one attempt per sequence number
   0 .. MAX_ATTEMPTS - 1, in order, each with exactly one outcome.
   */
  method RunAttempts(order: ByteOrder, pid: int, ready: seq<int>) returns (attempts: seq<Attempt>)
    requires |ready| == MAX_ATTEMPTS
    ensures |attempts| == MAX_ATTEMPTS
    ensures forall i :: 0 <= i < |attempts| ==> IsAttempt(order, pid, i, ready[i], attempts[i])
  {
    attempts := [];
    for sequence := 0 to MAX_ATTEMPTS
      invariant |attempts| == sequence
      invariant forall i :: 0 <= i < sequence ==> IsAttempt(order, pid, i, ready[i], attempts[i])
    {
      var request := BuildEchoRequest(order, pid, sequence);
      var outcome: Outcome;
      if ready[sequence] < 0 {
        outcome := SelectFailed;
      } else if ready[sequence] > 0 {
        outcome := Replied;
      } else {
        outcome := TimedOut;
      }
      attempts := attempts + [Attempt(sequence, request, outcome)];
    }
  }

  /**
   The attempts of a run carry strictly increasing, hence distinct, sequence
   numbers, and every request sent passes the receiver's checksum test.
   */
  lemma AttemptOrder(order: ByteOrder, pid: int, ready: seq<int>, attempts: seq<Attempt>)
    requires |ready| == |attempts|
    requires forall i :: 0 <= i < |attempts| ==> IsAttempt(order, pid, i, ready[i], attempts[i])
    ensures forall i, j :: 0 <= i < j < |attempts| ==> attempts[i].sequence < attempts[j].sequence
    ensures forall i :: 0 <= i < |attempts| ==> Checksum(HostWords(order, attempts[i].request), None) == 0
  {
    forall i | 0 <= i < |attempts|
      ensures Checksum(HostWords(order, attempts[i].request), None) == 0
    {
      EchoRequestVerifies(order, pid, i, attempts[i].request);
    }
  }
}
