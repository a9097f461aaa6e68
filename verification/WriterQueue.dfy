/** The output queue of one socket (include/pfs/netty/writer_queue.hpp): messages waiting, and
    the frame being sent. */
module WriterQueues {
  import opened Prelude
  import opened Archives
  import opened Framing

  datatype Queue = Queue(messages: seq<seq<byte>>, frame: seq<byte>)

  function Enqueued(q: Queue, data: seq<byte>): Queue {
    if data == [] then q else q.(messages := q.messages + [data])
  }

  /** The internal checks that acquire_frame and pack make. */
  predicate CanAcquire(q: Queue, frameSize: nat) {
    if q.frame != [] then |q.frame| <= frameSize else q.messages == [] || frameSize > HEADER_SIZE
  }

  ghost predicate ValidQueue(q: Queue) {
    forall i :: 0 <= i < |q.messages| ==> q.messages[i] != []
  }

  function Acquired(q: Queue, frameSize: nat): Queue
    requires ValidQueue(q) && CanAcquire(q, frameSize)
  {
    if q.frame != [] || q.messages == [] then q
    else
      var m := q.messages[0];
      var k := PayloadSize(|m|, frameSize);
      Queue(if k == |m| then q.messages[1..] else q.messages[0 := m[k..]], FrameOf(m[..k]))
  }

  function Shifted(q: Queue, n: nat): Queue
    requires 0 < n <= |q.frame|
  {
    q.(frame := q.frame[n..])
  }

  class WriterQueue {
    var q: seq<Archive>
    const frame: Archive
    ghost var messages: seq<seq<byte>>

    ghost predicate Valid()
      reads this, q, frame
    {
      && frame.Valid()
      && |messages| == |q|
      && (forall i {:trigger q[i]} :: 0 <= i < |q| ==> Holds(q[i], messages[i]) && q[i] != frame)
      && (forall i, j {:trigger q[i], q[j]} :: 0 <= i < j < |q| ==> q[i] != q[j])
    }

    static ghost predicate Holds(a: Archive, m: seq<byte>)
      reads a
    {
      a.Valid() && a.Contents() == m && m != []
    }

    ghost function View(): (v: Queue)
      requires Valid()
      reads this, q, frame
      ensures ValidQueue(v)
    {
      assert forall i :: 0 <= i < |messages| ==> Holds(q[i], messages[i]);
      Queue(messages, frame.Contents())
    }

    constructor ()
      ensures Valid() && fresh(frame) && View() == Queue([], []) && q == []
    {
      q, messages := [], [];
      frame := new Archive([]);
    }

    method Enqueue(data: seq<byte>)
      requires Valid()
      modifies this
      ensures Valid() && View() == Enqueued(old(View()), data)
      ensures q == old(q) || (|q| == |old(q)| + 1 && q[..|old(q)|] == old(q) && fresh(q[|old(q)|]))
    {
      if |data| == 0 {
        return;
      }
      var a := new Archive(data);
      q, messages := q + [a], messages + [data];
    }

    /** Packs the front message into the empty frame, and drops it when nothing is left of it. */
    method PackFront(frameSize: nat) returns (ok: bool)
      requires Valid() && frame.Contents() == [] && |q| > 0
      modifies this, frame, q[0]
      ensures Valid() && (ok <==> frameSize > HEADER_SIZE)
      ensures View() == if ok then Acquired(old(View()), frameSize) else old(View())
      ensures q == old(q) || q == old(q)[1..]
    {
      var front := q[0];
      ok := Pack(frame, front, frameSize);
      messages := messages[0 := front.Contents()];
      var b := front.Empty();
      if b {
        q, messages := q[1..], messages[1..];
      }
    }

    /** Returns a copy of the frame to send; ok is false when an internal check fails. */
    method AcquireFrame(frameSize: nat) returns (ok: bool, copy: Archive)
      requires Valid()
      modifies this, frame, q
      ensures Valid() && fresh(copy) && copy.Valid()
      ensures ok <==> CanAcquire(old(View()), frameSize)
      ensures View() == if ok then Acquired(old(View()), frameSize) else old(View())
      ensures copy.Contents() == View().frame
      ensures q == old(q) || q == old(q)[1..]
    {
      ok := true;
      var n := frame.Size();
      if n != 0 {
        ok := n <= frameSize;
      } else if |q| != 0 {
        ok := PackFront(frameSize);
      }
      copy := new Archive.Copied(frame);
    }

    /** ok is false when n is not between 1 and the size of the frame. */
    method Shift(n: nat) returns (ok: bool)
      requires Valid()
      modifies frame
      ensures Valid() && (ok <==> 0 < n <= |old(View()).frame|)
      ensures View() == if ok then Shifted(old(View()), n) else old(View())
    {
      var size := frame.Size();
      if n == 0 || n > size {
        return false;
      }
      if size == n {
        frame.Clear();
        ok := true;
      } else {
        ok := frame.EraseFront(n);
      }
    }
  }
}
