/**
 The SIMHUB packet module: the packet-buffer record, the set-up of the Rx
 and Tx rings and the packet-availability check of this revision.

 The rings themselves (`zephyrRingBuf*`) are driver code outside this
 model; `InitBuffer` records which ring was initialised with which store.
 */
module SimhubPkt {
  import opened CTypes

  /** Capacity of the inbound (Rx) ring and of its byte store. */
  const SIMHUB_RX_PKT_BUF_SIZE: SizeT := 128
  /** Capacity of the outbound (Tx) ring and of its byte store. */
  const SIMHUB_TX_PKT_BUF_SIZE: SizeT := 24

  type Byte = x: int | 0 <= x < 256

  /**
   The type the classifier reports. `Unsupported` stands for any other value
   the enum variable may hold, which the worker's `default` branch handles.
   */
  datatype PktType = Unlock | Proto | LedCount | LedData | Unsupported(code: int)

  /** A packet buffer: the caller's byte store, its size and two cursors. */
  datatype PktBuffer = PktBuffer(storage: seq<Byte>, size: SizeT, head: SizeT, tail: SizeT)

  /**
   The buffer constructor: a fresh buffer has both cursors at 0, so it is
   empty, keeps the store it was given and reports the size it was given.
   */
  function NewBuffer(storage: seq<Byte>, size: SizeT): (b: PktBuffer)
    ensures b.head == 0 && b.tail == 0
    ensures IsBufferEmpty(b)
    ensures b.storage == storage
    ensures GetBufferSize(b) == size
  {
    PktBuffer(storage, size, 0, 0)
  }

  /** True when the two cursors meet. */
  predicate IsBufferEmpty(pktBuf: PktBuffer)
  {
    pktBuf.head == pktBuf.tail
  }

  /** The size recorded when the buffer was constructed. */
  function GetBufferSize(pktBuf: PktBuffer): SizeT
  {
    pktBuf.size
  }

  /**
   Emptiness is decided by the cursors alone: two buffers with the same
   cursors agree on it whatever their stores and sizes, and moving one
   cursor away from the other makes a buffer non-empty.
   */
  lemma EmptinessDependsOnCursorsOnly(a: PktBuffer, b: PktBuffer)
    requires a.head == b.head && a.tail == b.tail
    ensures IsBufferEmpty(a) <==> IsBufferEmpty(b)
    ensures IsBufferEmpty(a) <==> a.head == a.tail
  {
  }

  /** The size query answers the constructed size, whatever the cursors have become. */
  lemma SizeSurvivesCursorMoves(storage: seq<Byte>, size: SizeT, head: SizeT, tail: SizeT)
    ensures GetBufferSize(NewBuffer(storage, size).(head := head, tail := tail)) == size
  {
  }

  /** The two rings of the module and their statically allocated stores. */
  datatype Ring = RxRing | TxRing

  /** Length of the store declared for each ring. */
  function StoreLength(ring: Ring): SizeT
  {
    match ring
    case RxRing => SIMHUB_RX_PKT_BUF_SIZE
    case TxRing => SIMHUB_TX_PKT_BUF_SIZE
  }

  /** One call of the ring-buffer initialiser: which ring, which size, which store. */
  datatype RingInit = RingBufInit(ring: Ring, size: SizeT, store: Ring)

  /**
   Initialises the Rx ring and then the Tx ring, each over its own store
   and with that store's length.
   */
  function InitBuffer(): (calls: seq<RingInit>)
    ensures |calls| == 2
    ensures calls[0].ring == RxRing && calls[1].ring == TxRing
    ensures calls[0].size == 128 && calls[1].size == 24
    ensures forall i :: 0 <= i < |calls| ==>
      calls[i].store == calls[i].ring && calls[i].size == StoreLength(calls[i].store)
  {
    [RingBufInit(RxRing, SIMHUB_RX_PKT_BUF_SIZE, RxRing),
     RingBufInit(TxRing, SIMHUB_TX_PKT_BUF_SIZE, TxRing)]
  }

  /**
   The packet-availability check. In this revision it answers false for
   every input and leaves the caller's packet-type variable as it was; the
   result pairs the answer with the value of that variable afterwards.
   */
  function IsPktAvailable(pktType: PktType): (r: (bool, PktType))
    ensures !r.0
    ensures r.1 == pktType
  {
    (false, pktType)
  }
}
