/**
 The ACM device: one pass of the worker that moves received bytes into the
 SIMHUB Rx packet buffer, dispatches an available packet to its handler
 and, for the two query packets, pushes the response out; and the device's
 initialisation chain.

 The collaborators (the packet buffers, the ACM driver, the classifier and
 the four handlers) are oracles: a pass is a function of what they answer,
 and its result is the trace of calls it made.
 */
module AcmDevice {
  import opened CTypes
  import SimhubPkt

  /** A claim granted by a packet buffer: the start of the granted area and its size. */
  datatype Claim = Claim(area: nat, size: SizeT)

  /** What the worker's collaborators answer during one pass. */
  datatype Collaborators = Collaborators(
    rxClaim: Claim,              // claim on the Rx packet buffer
    bytesRead: Int32,            // bytes the ACM driver copied into the Rx claim
    finishPuttingRc: Int32,      // result of committing them
    available: bool,             // the classifier's verdict
    pktType: SimhubPkt.PktType,  // the packet type variable after the verdict
    handlerRc: Int32,            // result of the handler that runs, if any
    txClaim: Claim,              // claim on the Tx packet buffer
    bytesWritten: Int32,         // bytes the ACM driver took from the Tx claim
    finishGettingRc: Int32)      // result of releasing them

  /** Calls the ACM device makes into its collaborators. */
  datatype Call =
    | ClaimPutting(requested: SizeT)
    | AcmRead(area: nat, size: SizeT)
    | FinishPutting(size: SizeT)
    | CheckPktAvailable
    | ProcessUnlock
    | ProcessProto
    | ProcessLedCount
    | ProcessLedData
    | ClaimGetting(requested: SizeT)
    | AcmWrite(area: nat, size: SizeT)
    | FinishGetting(size: SizeT)
    | EnableTxIrq
    | SetIrqCallback
    | AcmInit(rxSize: SizeT, txSize: SizeT)
    | PktInitBuffer
    | EnableRxIrq

  predicate IsHandler(call: Call)
  {
    call.ProcessUnlock? || call.ProcessProto? || call.ProcessLedCount? || call.ProcessLedData?
  }

  /** A call of the Tx response path. */
  predicate IsTxCall(call: Call)
  {
    call.ClaimGetting? || call.AcmWrite? || call.FinishGetting? || call.EnableTxIrq?
  }

  /** The handler the dispatch selects for a packet type; none for an unsupported value. */
  function HandlerFor(t: SimhubPkt.PktType): seq<Call>
  {
    match t
    case Unlock => [ProcessUnlock]
    case Proto => [ProcessProto]
    case LedCount => [ProcessLedCount]
    case LedData => [ProcessLedData]
    case Unsupported(_) => []
  }

  /** The packet types whose handler produces a response for the host. */
  predicate HasResponse(t: SimhubPkt.PktType)
  {
    t.Proto? || t.LedCount?
  }

  /** Receive phase: claim Rx space, fill it from the ACM driver, commit, classify. */
  function RxPhase(c: Collaborators): seq<Call>
  {
    [ ClaimPutting(SimhubPkt.SIMHUB_RX_PKT_BUF_SIZE),
      AcmRead(c.rxClaim.area, c.rxClaim.size),
      // The driver's int result is stored in a size_t before the commit.
      FinishPutting(ToSizeT(c.bytesRead)),
      CheckPktAvailable ]
  }

  /** Response phase: claim Tx bytes, hand them to the ACM driver, release them, arm Tx. */
  function TxPhase(c: Collaborators): seq<Call>
  {
    [ ClaimGetting(SimhubPkt.SIMHUB_TX_PKT_BUF_SIZE),
      AcmWrite(c.txClaim.area, c.txClaim.size),
      FinishGetting(ToSizeT(c.bytesWritten)),
      EnableTxIrq ]
  }

  /** The response the handler asked for: the Tx phase, or nothing. */
  function ResponsePhase(c: Collaborators): seq<Call>
  {
    var txResponse := HasResponse(c.pktType) && c.handlerRc >= 0;
    if txResponse then TxPhase(c) else []
  }

  /**
   One pass of the ACM worker. It always claims 128 bytes of Rx space, has
   the driver read exactly the granted size into the granted area, commits
   the count the driver returned and consults the classifier; a failing
   commit is only logged. With no packet available nothing more happens.
   */
  function WorkerPass(c: Collaborators): (trace: seq<Call>)
    ensures |trace| >= 4
    ensures trace[0] == ClaimPutting(128)
    ensures trace[1] == AcmRead(c.rxClaim.area, c.rxClaim.size)
    ensures trace[2] == FinishPutting(ToSizeT(c.bytesRead))
    ensures trace[3] == CheckPktAvailable
    ensures !c.available ==> |trace| == 4
    ensures c.available ==>
      |trace| == 4 + |HandlerFor(c.pktType)| + (if HasResponse(c.pktType) && c.handlerRc >= 0 then 4 else 0)
  {
    var rx := RxPhase(c);
    if !c.available then rx
    else
      rx + HandlerFor(c.pktType) + ResponsePhase(c)
  }

  /**
   A pass claims Rx space once, reads from the driver once, commits the
   received bytes once and consults the classifier once.
   */
  lemma WorkerCommitsAndClassifiesOnce(c: Collaborators)
    ensures forall i :: 0 <= i < |WorkerPass(c)| && WorkerPass(c)[i].ClaimPutting? ==> i == 0
    ensures forall i :: 0 <= i < |WorkerPass(c)| && WorkerPass(c)[i].AcmRead? ==> i == 1
    ensures forall i :: 0 <= i < |WorkerPass(c)| && WorkerPass(c)[i].FinishPutting? ==> i == 2
    ensures forall i :: 0 <= i < |WorkerPass(c)| && WorkerPass(c)[i] == CheckPktAvailable ==> i == 3
  {
    var trace := WorkerPass(c);
    forall i | 4 <= i < |trace|
      ensures !trace[i].ClaimPutting? && !trace[i].AcmRead?
      ensures !trace[i].FinishPutting? && trace[i] != CheckPktAvailable
    {
      assert trace[i] in trace[4..];
    }
  }

  /**
   When a packet of one of the four types is available, its handler runs,
   right after the classification; no handler runs at any other position,
   none runs when no packet is available, and none other than the one the
   packet type selects.
   */
  lemma WorkerRunsMatchingHandler(c: Collaborators)
    ensures c.available && !c.pktType.Unsupported? ==>
      |WorkerPass(c)| > 4 && [WorkerPass(c)[4]] == HandlerFor(c.pktType)
    ensures forall i :: 0 <= i < |WorkerPass(c)| && IsHandler(WorkerPass(c)[i]) ==>
      c.available && i == 4 && [WorkerPass(c)[i]] == HandlerFor(c.pktType)
  {
    var trace := WorkerPass(c);
    if c.available {
      var rest := HandlerFor(c.pktType) + ResponsePhase(c);
      assert trace == RxPhase(c) + rest;
      forall i | 0 <= i < |trace| && IsHandler(trace[i])
        ensures i == 4 && [trace[i]] == HandlerFor(c.pktType)
      {
        assert 4 <= i;
        assert trace[i] == rest[i - 4];
      }
    }
  }

  /**
   The Tx path (claim 24, write the granted size, release the count
   written, enable the Tx interrupt) ends the pass exactly when a protocol
   or LED-count query was available and its handler returned a
   non-negative result; the interrupt is enabled whatever the release
   answers. Tx calls occur only in those last four positions, so each of
   them, the interrupt enable included, happens once. Otherwise the pass
   makes no Tx call at all.
   */
  lemma WorkerRespondsToQueries(c: Collaborators)
    ensures EnableTxIrq in WorkerPass(c) <==> c.available && HasResponse(c.pktType) && c.handlerRc >= 0
    ensures EnableTxIrq in WorkerPass(c) ==>
      WorkerPass(c)[|WorkerPass(c)| - 4..] == [ ClaimGetting(24),
                                                AcmWrite(c.txClaim.area, c.txClaim.size),
                                                FinishGetting(ToSizeT(c.bytesWritten)),
                                                EnableTxIrq ]
    ensures forall i :: 0 <= i < |WorkerPass(c)| && IsTxCall(WorkerPass(c)[i]) ==>
      |WorkerPass(c)| - 4 <= i
    ensures EnableTxIrq !in WorkerPass(c) ==>
      forall i :: 0 <= i < |WorkerPass(c)| ==> !IsTxCall(WorkerPass(c)[i])
  {
    var trace := WorkerPass(c);
    if c.available {
      var front := RxPhase(c) + HandlerFor(c.pktType);
      assert trace == front + ResponsePhase(c);
      forall i | 0 <= i < |front|
        ensures !IsTxCall(trace[i])
      {
        assert trace[i] == front[i];
      }
    }
  }

  /**
   The results of committing received bytes and of releasing sent bytes are
   only logged: they never change what the worker does.
   */
  lemma WorkerIgnoresCommitResults(c: Collaborators, putRc: Int32, getRc: Int32)
    ensures WorkerPass(c.(finishPuttingRc := putRc, finishGettingRc := getRc)) == WorkerPass(c)
  {
  }

  /** Unlock and LED-data packets never start any Tx activity, whatever their handler returns. */
  lemma NoResponseToUnlockOrLedData(c: Collaborators)
    requires c.pktType == SimhubPkt.Unlock || c.pktType == SimhubPkt.LedData
    ensures forall i :: 0 <= i < |WorkerPass(c)| ==> !IsTxCall(WorkerPass(c)[i])
  {
  }

  /** A packet type outside the four runs no handler and sends nothing. */
  lemma UnsupportedTypeIsOnlyReceived(c: Collaborators)
    requires c.pktType.Unsupported?
    ensures WorkerPass(c) == RxPhase(c)
  {
  }

  /**
   The driver's read count is an int stored into a size_t. A negative count
   (a driver error) reaches the Rx commit as a size above 2^31 - 1, far
   beyond the 128 bytes the worker ever claims.
   */
  lemma NegativeReadCommitsHugeSize(c: Collaborators)
    requires c.bytesRead < 0
    ensures WorkerPass(c)[2] == FinishPutting(SIZE_MODULUS + c.bytesRead)
    ensures WorkerPass(c)[2].size > INT_MAX > SimhubPkt.SIMHUB_RX_PKT_BUF_SIZE
  {
  }

  /**
   In this revision the availability check always answers false and leaves
   the packet type alone, so a worker pass fed by it runs no handler, sends
   nothing and stops after the receive phase.
   */
  lemma NoHandlerRunsInThisRevision(c: Collaborators)
    ensures var verdict := SimhubPkt.IsPktAvailable(c.pktType);
      var pass := WorkerPass(c.(available := verdict.0, pktType := verdict.1));
      && pass == RxPhase(c)
      && forall i :: 0 <= i < |pass| ==> !IsHandler(pass[i]) && !IsTxCall(pass[i])
  {
  }

  /**
   Initialises the ACM device: installs the interrupt callback, initialises
   the driver with the Rx and Tx packet-buffer sizes (128, 24) and, unless
   that returned a negative result, initialises the packet buffers and
   enables the Rx interrupt, each once. The driver's result is returned.
   */
  function AcmDeviceInit(acmInitRc: Int32): (r: (Int32, seq<Call>))
    ensures r.0 == acmInitRc
    ensures |r.1| >= 2 && r.1[0] == SetIrqCallback && r.1[1] == AcmInit(128, 24)
    ensures multiset(r.1)[PktInitBuffer] == (if acmInitRc < 0 then 0 else 1)
    ensures multiset(r.1)[EnableRxIrq] == (if acmInitRc < 0 then 0 else 1)
    ensures acmInitRc < 0 ==> r.1 == [SetIrqCallback, AcmInit(128, 24)]
    ensures acmInitRc >= 0 ==> r.1[2..] == [PktInitBuffer, EnableRxIrq]
  {
    var rc := acmInitRc;
    var setup := [SetIrqCallback, AcmInit(SimhubPkt.SIMHUB_RX_PKT_BUF_SIZE, SimhubPkt.SIMHUB_TX_PKT_BUF_SIZE)];
    if rc < 0 then (rc, setup)
    else (rc, setup + [PktInitBuffer, EnableRxIrq])
  }
}
