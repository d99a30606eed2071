// The 32-bit bit queue of the Manchester receiver (bit_queue.c): bits enter at the low end of
// one word and leave from position pFirst - 1, so they come out in the order they went in.

module BitQueue {
  import opened Common

  /** BitQueueStatus_t */
  datatype BitQueueStatus = bqOk | bqEmpty | bqFull | bqErr

  /** sizeof(qu->queue) * CHAR_BIT */
  const QUEUE_BITS: nat := 32

  /** uint32_t, as its 32 bits: index k holds the bit of weight 2^k */
  type Word = s: seq<bool> | |s| == QUEUE_BITS witness seq(32, _ => false)

  /**
   * The bit at position k of the word, which dequeueBit tests with the mask 1 << k; a mask
   * shifted out of the word finds 0.
   */
  function BitAt(q: Word, k: nat): (b: byte)
    ensures b == 0 || b == 1
  {
    if k >= QUEUE_BITS then 0 else if q[k] then 1 else 0
  }

  /**
   * The word after putBitInQueue shifts bit & 1 in at the low end (bit_queue.c:36): every bit
   * moves up one place and bit 31 leaves the word.
   */
  function PutWord(q: Word, bit: byte): (r: Word)
    ensures BitAt(r, 0) == bit % 2
    ensures forall k :: 0 < k < QUEUE_BITS ==> r[k] == q[k - 1]
  {
    [bit % 2 == 1] + q[..QUEUE_BITS - 1]
  }

  /** The bits a queue word holds with pFirst p, oldest first: the order dequeueBit yields them. */
  function Held(q: Word, p: nat): (s: seq<byte>)
    ensures |s| == p
  {
    seq(p, i requires 0 <= i < p => BitAt(q, p - 1 - i))
  }

  /** While fewer than 32 bits are held, a put appends its bit (bit & 1) to the queue. */
  lemma {:induction false} PutAppends(q: Word, p: nat, bit: byte)
    requires p < QUEUE_BITS
    ensures Held(PutWord(q, bit), p + 1) == Held(q, p) + [bit % 2]
  {
    var s, t := Held(PutWord(q, bit), p + 1), Held(q, p) + [bit % 2];
    forall i | 0 <= i < p + 1
      ensures s[i] == t[i]
    {
      if i < p {
        assert BitAt(PutWord(q, bit), p - i) == BitAt(q, p - 1 - i);
      }
    }
  }

  /**
   * With 32 bits held, putBitInQueue still accepts a bit: the oldest bit is shifted out of the
   * word and the queue then yields a 0 in its place.
   */
  lemma {:induction false} PutAt32LosesOldest(q: Word, bit: byte)
    ensures Held(PutWord(q, bit), QUEUE_BITS + 1) == [0] + Held(q, QUEUE_BITS)[1..] + [bit % 2]
  {
    var s, t := Held(PutWord(q, bit), QUEUE_BITS + 1), [0] + Held(q, QUEUE_BITS)[1..] + [bit % 2];
    forall i | 0 <= i < QUEUE_BITS + 1
      ensures s[i] == t[i]
    {
      if 0 < i < QUEUE_BITS {
        assert t[i] == Held(q, QUEUE_BITS)[i] == BitAt(q, QUEUE_BITS - 1 - i);
        assert s[i] == BitAt(PutWord(q, bit), QUEUE_BITS - i) == BitAt(q, QUEUE_BITS - 1 - i);
      }
    }
  }

  /** A word of 32 ones held whole: its oldest bit is a 1 that the 33rd put turns into a 0. */
  lemma FullQueueLosesBit()
    ensures var ones: Word := seq(32, _ => true);
            Held(ones, QUEUE_BITS)[0] == 1 && Held(PutWord(ones, 1), QUEUE_BITS + 1)[0] == 0
  {
    var ones: Word := seq(32, _ => true);
    PutAt32LosesOldest(ones, 1);
  }

  /** dequeueBit takes the oldest bit and leaves the rest in order. */
  lemma TakeOldest(q: Word, p: nat)
    requires 0 < p
    ensures Held(q, p)[0] == BitAt(q, p - 1)
    ensures Held(q, p - 1) == Held(q, p)[1..]
  {
  }

  /** BitQueue_t, updated in place by both operations */
  class Queue {
    var queue: Word
    /** the number of bits held; 0 means empty */
    var pFirst: nat

    /** pFirst never passes 33: puts stop at the full test and dequeues stop at 0 */
    ghost predicate Valid()
      reads this
    {
      pFirst <= QUEUE_BITS + 1
    }

    function Contents(): (s: seq<byte>)
      reads this
    {
      Held(queue, pFirst)
    }

    /** the zero-initialised queue of the receiver */
    constructor()
      ensures Valid() && pFirst == 0 && Contents() == [] && forall k :: 0 <= k < QUEUE_BITS ==> BitAt(queue, k) == 0
    {
      queue, pFirst := seq(32, _ => false), 0;
    }
  }

  /**
   * putBitInQueue as written (bit_queue.c:28-40): bqErr for a NULL queue; bqFull only once
   * pFirst exceeds 32, so a put with 32 bits held still goes in and loses the oldest bit.
   */
  method PutBitInQueueAsWritten(bit: byte, qu: Queue?) returns (st: BitQueueStatus)
    requires qu != null ==> qu.Valid()
    modifies qu
    ensures qu == null <==> st == bqErr
    ensures qu != null ==> qu.Valid()
    ensures qu != null && old(qu.pFirst) > QUEUE_BITS ==> st == bqFull && qu.queue == old(qu.queue) && qu.pFirst == old(qu.pFirst)
    ensures qu != null && old(qu.pFirst) <= QUEUE_BITS ==>
              st == bqOk && qu.queue == PutWord(old(qu.queue), bit) && qu.pFirst == old(qu.pFirst) + 1
    ensures qu != null && old(qu.pFirst) < QUEUE_BITS ==> qu.Contents() == old(qu.Contents()) + [bit % 2]
    ensures qu != null && old(qu.pFirst) == QUEUE_BITS ==>
              qu.Contents() == [0] + old(qu.Contents())[1..] + [bit % 2]
  {
    if qu == null {
      return bqErr;
    }
    if qu.pFirst > QUEUE_BITS {
      return bqFull;
    }
    if qu.pFirst < QUEUE_BITS {
      PutAppends(qu.queue, qu.pFirst, bit);
    } else {
      PutAt32LosesOldest(qu.queue, bit);
    }
    qu.queue := PutWord(qu.queue, bit);
    qu.pFirst := qu.pFirst + 1;
    st := bqOk;
  }

  /**
   * putBitInQueue with the full test the queue's 32-bit word calls for (pFirst >= 32): every
   * accepted bit is appended, and a full queue is left as it was.
   */
  method PutBitInQueue(bit: byte, qu: Queue?) returns (st: BitQueueStatus)
    requires qu != null ==> qu.Valid()
    modifies qu
    ensures qu == null <==> st == bqErr
    ensures qu != null ==> qu.Valid()
    ensures qu != null ==> (st == bqFull <==> old(qu.pFirst) >= QUEUE_BITS)
    ensures st == bqFull ==> qu.queue == old(qu.queue) && qu.pFirst == old(qu.pFirst)
    ensures st == bqOk ==> qu.Contents() == old(qu.Contents()) + [bit % 2] && qu.pFirst <= QUEUE_BITS
  {
    if qu == null {
      return bqErr;
    }
    if qu.pFirst >= QUEUE_BITS {
      return bqFull;
    }
    PutAppends(qu.queue, qu.pFirst, bit);
    qu.queue := PutWord(qu.queue, bit);
    qu.pFirst := qu.pFirst + 1;
    st := bqOk;
  }

  /**
   * dequeueBit (bit_queue.c:42-54): bqErr for a NULL queue, bqEmpty when nothing is held;
   * otherwise the oldest bit is returned (the C writes it through the bit pointer only then)
   * and the queue holds the rest.
   */
  method DequeueBit(qu: Queue?) returns (st: BitQueueStatus, bit: Option<byte>)
    requires qu != null ==> qu.Valid()
    modifies qu
    ensures qu == null <==> st == bqErr
    ensures qu != null ==> qu.Valid() && qu.queue == old(qu.queue)
    ensures st != bqOk <==> bit.None?
    ensures qu != null && old(qu.pFirst) == 0 ==> st == bqEmpty && qu.pFirst == 0
    ensures qu != null && old(qu.pFirst) > 0 ==>
              st == bqOk && bit == Some(old(qu.Contents())[0]) && qu.Contents() == old(qu.Contents())[1..]
  {
    if qu == null {
      return bqErr, None;
    }
    if qu.pFirst == 0 {
      return bqEmpty, None;
    }
    TakeOldest(qu.queue, qu.pFirst);
    var b := BitAt(qu.queue, qu.pFirst - 1);
    qu.pFirst := qu.pFirst - 1;
    return bqOk, Some(b);
  }
}
