/** The HTTP sender as the program runs it: two circular queues and a busy flag. */
module Sender {
  import opened Ring
  import opened SendSteps
  import Steps = SendSteps

  class Http {
    const chunk: nat
    const pending: Queue<Send>
    const split: Queue<Split>
    var busy: bool
    var posted: nat
    ghost var log: seq<Packet>
    ghost var lost: bool

    ghost predicate Valid()
      reads this, pending, pending.content, split, split.content
    {
      pending.Valid() && split.Valid() && Disjoint()
    }

    ghost predicate Disjoint() {
      var p: object, s: object, pc: object, sc: object := pending, split, pending.content, split.content;
      p != s && p != sc && s != pc && pc != sc
    }

    ghost function Abs(): Net
      requires Valid()
      reads this, pending, pending.content, split, split.content
    {
      Net(pending.Contents(), split.Contents(), busy, posted, log, lost)
    }

    ghost function Cfg(): Config {
      Config(chunk, pending.maxSize, split.maxSize)
    }

    constructor (chunk: nat, pendingMax: nat, splitMax: nat)
      ensures Valid() && fresh(pending) && fresh(split) && fresh(pending.content) && fresh(split.content)
      ensures Abs() == INIT && Cfg() == Config(chunk, pendingMax, splitMax)
    {
      this.chunk := chunk;
      pending := new Queue<Send>(pendingMax);
      split := new Queue<Split>(splitMax);
      busy := false;
      posted := 0;
      log := [];
      lost := false;
    }

    method PushPending(r: Send)
      requires Valid()
      modifies this, pending, pending.content
      ensures Valid() && Abs() == Steps.PushPending(Cfg(), old(Abs()), r)
    {
      var res := pending.Push(r);
      if res == QueueFull {
        lost := true;
      }
    }

    method SendBuffer(r: Send, link: Link)
      requires Valid()
      modifies this, pending, pending.content
      ensures Valid() && Abs() == Steps.SendBuffer(Cfg(), old(Abs()), r, link)
    {
      if busy {
        PushPending(r);
      } else {
        busy := true;
        if link.accepts {
          log := log + [Packet(r.conn, r.msg)];
        } else {
          lost := true;
          busy := false;
          posted := posted + 1;
        }
      }
    }

    method PushSplit(r: Split)
      requires Valid()
      modifies this, split, split.content
      ensures Valid() && Abs() == Steps.PushSplit(Cfg(), old(Abs()), r)
    {
      var res := split.Push(r);
      if res == QueueFull {
        lost := true;
      }
    }

    method HttpSend(conn: nat, msg: string, link: Link)
      requires Valid()
      modifies this, pending, pending.content, split, split.content
      ensures Valid() && Abs() == Steps.HttpSend(Cfg(), old(Abs()), conn, msg, link)
    {
      if |msg| > chunk {
        PushSplit(Split(conn, 2, msg, chunk));
        SendBuffer(Send(conn, 1, msg[..chunk]), link);
      } else {
        SendBuffer(Send(conn, 1, msg), link);
      }
    }

    method SendRemainingMsg(r: Split, link: Link)
      requires Valid() && r.transferred <= |r.content|
      modifies this, pending, pending.content, split, split.content
      ensures Valid() && Abs() == Steps.Remaining(Cfg(), old(Abs()), r, link)
    {
      if !link.inUse {
        lost := true;
        posted := posted + 1;
      } else if |r.content| - r.transferred > chunk {
        var piece := r.content[r.transferred..][..chunk];
        PushSplit(r.(order := r.order + 1, transferred := r.transferred + chunk));
        SendBuffer(Send(r.conn, r.order, piece), link);
      } else {
        SendBuffer(Send(r.conn, r.order, r.content[r.transferred..]), link);
      }
    }

    method Response(conn: nat, header: string, msg: string, hl: Link, ml: Link)
      requires Valid()
      modifies this, pending, pending.content, split, split.content
      ensures Valid() && Abs() == Steps.Response(Cfg(), old(Abs()), conn, header, msg, hl, ml)
    {
      SendBuffer(Send(conn, 0, header), hl);
      if |msg| > 0 {
        HttpSend(conn, msg, ml);
      }
    }

    method SentCb()
      requires Valid()
      modifies this
      ensures Valid() && Abs() == Steps.SentCb(old(Abs()))
    {
      busy := false;
      posted := posted + 1;
    }

    method CheckPendingSend(up: bool, link: Link)
      requires Valid()
      requires forall r | r in split.Contents() :: r.transferred <= |r.content|
      modifies this, pending, pending.content, split, split.content
      ensures Valid() && Abs() == Steps.Check(Cfg(), old(Abs()), up, link)
    {
      hide Steps.SendBuffer, Steps.Remaining, Steps.Cleared, Queue.Contents, Disjoint;
      if posted > 0 {
        posted := posted - 1;
      }
      if !up {
        ClearQueues();
        return;
      }
      var p := pending.Front();
      if p.Some? {
        if !busy {
          ServePending(p.value, link);
        }
        return;
      }
      var s := split.Front();
      if s.Some? {
        assert s.value in split.Contents();
        ServeSplit(s.value, link);
      }
    }

    // With the server down both queues are emptied.
    method ClearQueues()
      requires Valid()
      modifies this`lost, pending, pending.content, split, split.content
      ensures Valid() && Abs() == Steps.Cleared(old(Abs()))
    {
      ClearPending();
      ClearSplit();
    }

    // Sends the oldest pending buffer, then drops it from the queue.
    method ServePending(r: Send, link: Link)
      requires Valid() && pending.Contents() != [] && pending.Contents()[0] == r && !busy
      modifies this, pending, pending.content
      ensures Valid()
      ensures var s := Steps.SendBuffer(Cfg(), old(Abs()), r, link);
              Abs() == s.(pending := s.pending[1..])
    {
      SendBuffer(r, link);
      var _ := pending.Pop();
    }

    // Serves the oldest long message; its next record is pushed before it is popped.
    method ServeSplit(r: Split, link: Link)
      requires Valid() && split.Contents() != [] && split.Contents()[0] == r && r.transferred <= |r.content|
      modifies this, pending, pending.content, split, split.content
      ensures Valid()
      ensures var s := Steps.Remaining(Cfg(), old(Abs()), r, link);
              s.split != [] && Abs() == s.(split := s.split[1..])
    {
      SendRemainingMsg(r, link);
      var _ := split.Pop();
    }

    method ClearPending()
      requires Valid()
      modifies this`lost, pending, pending.content
      ensures Valid()
      ensures Abs() == old(Abs()).(pending := [], lost := old(lost || pending.Contents() != []))
    {
      var p := pending.Front();
      while p.Some?
        invariant Valid() && p.Some? == (pending.Contents() != [])
        invariant |pending.Contents()| <= |old(pending.Contents())|
        invariant lost == (old(lost) || pending.Contents() != old(pending.Contents()))
        invariant Abs() == old(Abs()).(pending := pending.Contents(), lost := lost)
        decreases |pending.Contents()|
      {
        var _ := pending.Pop();
        lost := true;
        p := pending.Front();
      }
    }

    method ClearSplit()
      requires Valid()
      modifies this`lost, split, split.content
      ensures Valid()
      ensures Abs() == old(Abs()).(split := [], lost := old(lost || split.Contents() != []))
    {
      var s := split.Front();
      while s.Some?
        invariant Valid() && s.Some? == (split.Contents() != [])
        invariant |split.Contents()| <= |old(split.Contents())|
        invariant lost == (old(lost) || split.Contents() != old(split.Contents()))
        invariant Abs() == old(Abs()).(split := split.Contents(), lost := lost)
        decreases |split.Contents()|
      {
        var _ := split.Pop();
        lost := true;
        s := split.Front();
      }
    }
  }
}
