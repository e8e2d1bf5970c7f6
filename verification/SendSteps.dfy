/**
 * The split HTTP sender as a machine over its callbacks: responses, sent
 * callbacks and pending-send checks.  `Net` is the state the callbacks share;
 * `espconn_send` appends to `log`, and `lost` remembers that some bytes were
 * dropped because a queue was full or the connection refused them.
 */
module SendSteps {
  datatype Send = Send(conn: nat, order: nat, msg: string)

  // What is left of a long message: the bytes of `content` from `transferred` on.
  datatype Split = Split(conn: nat, order: nat, content: string, transferred: nat)

  datatype Packet = Packet(conn: nat, bytes: string)

  // What the connection does during one callback: `inUse` is the state test of
  // send_remaining_msg, `accepts` the state test and result of espconn_send.
  datatype Link = Link(inUse: bool, accepts: bool)

  const GOOD := Link(true, true)

  datatype Net = Net(pending: seq<Send>, split: seq<Split>, busy: bool, posted: nat,
                     log: seq<Packet>, lost: bool)

  // Chunk size and the capacities of the two queues.
  datatype Config = Config(chunk: nat, pendingMax: nat, splitMax: nat)

  const INIT := Net([], [], false, 0, [], false)

  // ------------------------------------------------------------- the steps

  function PushPending(g: Config, n: Net, r: Send): Net {
    if |n.pending| == g.pendingMax then n.(lost := true) else n.(pending := n.pending + [r])
  }

  function PushSplit(g: Config, n: Net, r: Split): Net {
    if |n.split| == g.splitMax then n.(lost := true) else n.(split := n.split + [r])
  }

  function SendBuffer(g: Config, n: Net, r: Send, link: Link): Net {
    if n.busy then PushPending(g, n, r)
    else if link.accepts then n.(busy := true, log := n.log + [Packet(r.conn, r.msg)])
    else n.(lost := true, posted := n.posted + 1)
  }

  function HttpSend(g: Config, n: Net, conn: nat, msg: string, link: Link): Net {
    if |msg| > g.chunk then
      SendBuffer(g, PushSplit(g, n, Split(conn, 2, msg, g.chunk)), Send(conn, 1, msg[..g.chunk]), link)
    else
      SendBuffer(g, n, Send(conn, 1, msg), link)
  }

  function Remaining(g: Config, n: Net, r: Split, link: Link): Net
    requires r.transferred <= |r.content|
  {
    var rest := r.content[r.transferred..];
    if !link.inUse then
      n.(lost := true, posted := n.posted + 1)
    else if |rest| > g.chunk then
      SendBuffer(g, PushSplit(g, n, r.(order := r.order + 1, transferred := r.transferred + g.chunk)),
                 Send(r.conn, r.order, rest[..g.chunk]), link)
    else
      SendBuffer(g, n, Send(r.conn, r.order, rest), link)
  }

  function Cleared(n: Net): Net {
    n.(lost := n.lost || n.pending != [] || n.split != [], pending := [], split := [])
  }

  function Check(g: Config, n: Net, up: bool, link: Link): Net
    requires forall r | r in n.split :: r.transferred <= |r.content|
  {
    var m := n.(posted := if n.posted > 0 then n.posted - 1 else 0);
    if !up then Cleared(m)
    else if m.pending != [] then
      if m.busy then m
      else
        var s := SendBuffer(g, m, m.pending[0], link);
        s.(pending := s.pending[1..])
    else if m.split != [] then
      var s := Remaining(g, m, m.split[0], link);
      s.(split := s.split[1..])
    else m
  }

  // The sent callback; the time-out of the busy flag has the same effect.
  function SentCb(n: Net): Net {
    n.(busy := false, posted := n.posted + 1)
  }

  function Response(g: Config, n: Net, conn: nat, header: string, msg: string, hl: Link, ml: Link): Net {
    var s := SendBuffer(g, n, Send(conn, 0, header), hl);
    if msg == "" then s else HttpSend(g, s, conn, msg, ml)
  }

  // ------------------------------------------------------------- streams

  // The bytes handed to espconn_send for a connection.
  ghost function Sent(log: seq<Packet>, c: nat): string {
    if log == [] then ""
    else Sent(log[..|log| - 1], c) + if log[|log| - 1].conn == c then log[|log| - 1].bytes else ""
  }

  // The bytes of a connection in the pending queue.
  ghost function Queued(q: seq<Send>, c: nat): string {
    if q == [] then "" else (if q[0].conn == c then q[0].msg else "") + Queued(q[1..], c)
  }

  // The bytes of a connection not yet cut off its long messages.
  ghost function Rest(q: seq<Split>, c: nat): string {
    if q == [] then "" else
    (if q[0].conn == c && q[0].transferred <= |q[0].content| then q[0].content[q[0].transferred..] else "")
    + Rest(q[1..], c)
  }

  // The bytes of a connection sent or waiting to be sent as they are.
  ghost function Moving(n: Net, c: nat): string {
    Sent(n.log, c) + Queued(n.pending, c)
  }

  // Everything accepted for a connection, in the order it will leave.
  ghost function Stream(n: Net, c: nat): string {
    Moving(n, c) + Rest(n.split, c)
  }

  ghost predicate NoSplit(q: seq<Split>, c: nat) { forall r | r in q :: r.conn != c }

  ghost predicate NoPending(q: seq<Send>, c: nat) { forall r | r in q :: r.conn != c }

  // No queued piece is empty.
  ghost predicate Sound(g: Config, n: Net) {
    && g.chunk > 0
    && (forall r | r in n.pending :: r.msg != "")
    && (forall r | r in n.split :: r.transferred < |r.content|)
  }

  ghost predicate Distinct(q: seq<Split>) {
    forall i, j | 0 <= i < j < |q| :: q[i].conn != q[j].conn
  }

  // At most one long message of each connection is being split.
  ghost predicate Wf(g: Config, n: Net) {
    Sound(g, n) && Distinct(n.split)
  }

  // Bytes wait in a queue only while a sent callback or a check is on its way.
  ghost predicate Awake(n: Net) {
    (n.pending == [] && n.split == []) || n.busy || n.posted > 0
  }

  // A response on `c` keeps its place: nothing of `c` is still to be split, and
  // the header cannot overtake bytes of `c` in the pending queue.
  ghost predicate Clear(n: Net, c: nat) {
    NoSplit(n.split, c) && (n.busy || NoPending(n.pending, c))
  }

  // ------------------------------------------------------------- stream lemmas

  lemma {:induction false} QueuedAppend(q: seq<Send>, r: Send, c: nat)
    ensures Queued(q + [r], c) == Queued(q, c) + For(r.conn, r.msg, c)
  {
    if q == [] {
      assert (q + [r])[1..] == [];
    } else {
      assert (q + [r])[1..] == q[1..] + [r];
      QueuedAppend(q[1..], r, c);
      Assoc(For(q[0].conn, q[0].msg, c), Queued(q[1..], c), For(r.conn, r.msg, c));
    }
  }

  lemma {:induction false} QueuedNone(q: seq<Send>, c: nat)
    requires NoPending(q, c)
    ensures Queued(q, c) == ""
  {
    if q != [] {
      assert q[0] in q;
      QueuedNone(q[1..], c);
    }
  }

  lemma {:induction false} QueuedSome(q: seq<Send>, c: nat)
    requires forall r | r in q :: r.msg != ""
    requires !NoPending(q, c)
    ensures Queued(q, c) != ""
  {
    if q[0].conn != c {
      assert !NoPending(q[1..], c);
      QueuedSome(q[1..], c);
    } else {
      assert q[0] in q;
    }
  }

  lemma {:induction false} RestNone(q: seq<Split>, c: nat)
    requires NoSplit(q, c)
    ensures Rest(q, c) == ""
  {
    if q != [] {
      assert q[0] in q;
      RestNone(q[1..], c);
    }
  }

  lemma {:induction false} RestSome(q: seq<Split>, c: nat)
    requires forall r | r in q :: r.transferred < |r.content|
    requires !NoSplit(q, c)
    ensures Rest(q, c) != ""
  {
    if q[0].conn != c {
      assert !NoSplit(q[1..], c);
      RestSome(q[1..], c);
    } else {
      assert q[0] in q;
      assert |q[0].content[q[0].transferred..]| > 0;
    }
  }

  ghost function Tail(r: Split, c: nat): string {
    if r.conn == c && r.transferred <= |r.content| then r.content[r.transferred..] else ""
  }

  lemma {:induction false} RestAppend(q: seq<Split>, r: Split, c: nat)
    ensures Rest(q + [r], c) == Rest(q, c) + Tail(r, c)
  {
    if q == [] {
      assert (q + [r])[1..] == [];
    } else {
      assert (q + [r])[1..] == q[1..] + [r];
      RestAppend(q[1..], r, c);
      Assoc(Tail(q[0], c), Rest(q[1..], c), Tail(r, c));
    }
  }

  lemma SentAppend(log: seq<Packet>, p: Packet, c: nat)
    ensures Sent(log + [p], c) == Sent(log, c) + For(p.conn, p.bytes, c)
  {
    assert (log + [p])[..|log|] == log;
  }

  // ------------------------------------------------------------- one step

  // The part of a message that belongs to connection `c`.
  ghost function For(conn: nat, msg: string, c: nat): string {
    if conn == c then msg else ""
  }

  lemma SendMoves(g: Config, n: Net, r: Send, link: Link, c: nat)
    requires n.busy || r.conn != c || NoPending(n.pending, c)
    ensures var s := SendBuffer(g, n, r, link);
            s.split == n.split && (n.lost ==> s.lost)
            && (s.lost || (s.busy && Moving(s, c) == Moving(n, c) + For(r.conn, r.msg, c)))
  {
    var part := For(r.conn, r.msg, c);
    if n.busy {
      QueuedAppend(n.pending, r, c);
      Assoc(Sent(n.log, c), Queued(n.pending, c), part);
    } else {
      SentAppend(n.log, Packet(r.conn, r.msg), c);
      if r.conn == c {
        QueuedNone(n.pending, c);
      }
      Commute(Sent(n.log, c), part, Queued(n.pending, c));
    }
  }

  lemma Assoc(a: string, x: string, y: string)
    ensures a + (x + y) == (a + x) + y
  {
  }

  lemma SendWf(g: Config, n: Net, r: Send, link: Link)
    requires Wf(g, n) && r.msg != ""
    ensures Wf(g, SendBuffer(g, n, r, link)) && (n.lost ==> SendBuffer(g, n, r, link).lost)
  {
  }

  // Two pieces commute when one of them is empty.
  lemma Commute(a: string, x: string, y: string)
    requires x == "" || y == ""
    ensures (a + x) + y == (a + y) + x
  {
    assert x == "" ==> a + x == a && (a + y) + x == a + y;
    assert y == "" ==> a + y == a && (a + x) + y == a + x;
  }

  // ------------------------------------------------------------- a check

  // A check moves bytes forward without changing any connection's stream.
  lemma CheckKeeps(g: Config, n: Net, up: bool, link: Link, c: nat)
    requires Wf(g, n)
    ensures var s := Check(g, n, up, link);
            Wf(g, s) && (s.lost || (!n.lost && Stream(s, c) == Stream(n, c)))
  {
    var m := n.(posted := if n.posted > 0 then n.posted - 1 else 0);
    if up && n.pending != [] {
      CheckPending(g, m, link, c);
    } else if up && n.split != [] {
      SplitKeeps(g, m, link, c);
    }
  }

  lemma CheckPending(g: Config, m: Net, link: Link, c: nat)
    requires Wf(g, m) && m.pending != []
    ensures var s := SendBuffer(g, m, m.pending[0], link);
            m.busy || (Wf(g, s.(pending := s.pending[1..]))
            && (s.lost || (!m.lost && Stream(s.(pending := s.pending[1..]), c) == Stream(m, c))))
  {
    SentAppend(m.log, Packet(m.pending[0].conn, m.pending[0].msg), c);
    var p := For(m.pending[0].conn, m.pending[0].msg, c);
    assert Sent(m.log, c) + Queued(m.pending, c) == (Sent(m.log, c) + p) + Queued(m.pending[1..], c);
  }

  lemma PushSplitAdds(g: Config, n: Net, r: Split, c: nat)
    ensures var p := PushSplit(g, n, r);
            p.log == n.log && p.pending == n.pending && p.busy == n.busy && (n.lost ==> p.lost)
            && n.split <= p.split
            && (p.lost || (p.split == n.split + [r] && Rest(p.split, c) == Rest(n.split, c) + Tail(r, c)))
  {
    RestAppend(n.split, r, c);
  }

  // Cutting the next chunk off the oldest long message.
  lemma SplitKeeps(g: Config, m: Net, link: Link, c: nat)
    requires Wf(g, m) && m.pending == [] && m.split != []
    ensures m.split[0].transferred < |m.split[0].content|
    ensures var s := Remaining(g, m, m.split[0], link);
            s.split != [] && Wf(g, s.(split := s.split[1..]))
            && (s.lost || (!m.lost && Stream(s.(split := s.split[1..]), c) == Stream(m, c)))
  {
    assert m.split[0] in m.split;
    SplitWf(g, m, link);
    assert forall i | 0 <= i < |m.split[1..]| :: m.split[1..][i] == m.split[i + 1];
    if m.split[0].transferred + g.chunk < |m.split[0].content| {
      SplitStream(g, m, link, c);
    } else {
      SplitLast(g, m, link, c);
    }
  }

  lemma SplitWf(g: Config, m: Net, link: Link)
    requires Wf(g, m) && m.pending == [] && m.split != []
    requires m.split[0].transferred < |m.split[0].content|
    ensures var s := Remaining(g, m, m.split[0], link);
            s.split != [] && Wf(g, s.(split := s.split[1..])) && (m.lost ==> s.lost)
  {
    hide Distinct;
    var r := m.split[0];
    var next := r.(order := r.order + 1, transferred := r.transferred + g.chunk);
    assert (m.split + [next])[1..] == m.split[1..] + [next];
    DistinctPopPush(m.split, next);
  }

  // The next record of a message takes the place of the one it came from.
  lemma DistinctPopPush(q: seq<Split>, next: Split)
    requires Distinct(q) && q != [] && next.conn == q[0].conn
    ensures Distinct(q[1..]) && Distinct(q[1..] + [next])
  {
  }

  lemma SplitStream(g: Config, m: Net, link: Link, c: nat)
    requires g.chunk > 0 && m.pending == [] && m.split != []
    requires m.split[0].transferred + g.chunk < |m.split[0].content|
    requires NoSplit(m.split[1..], m.split[0].conn)
    ensures var s := Remaining(g, m, m.split[0], link);
            s.split != [] && (s.lost || Stream(s.(split := s.split[1..]), c) == Stream(m, c))
  {
    hide SendBuffer, Moving, PushSplit, Sent, Queued, Rest;
    var r := m.split[0];
    var rest := r.content[r.transferred..];
    var next := r.(order := r.order + 1, transferred := r.transferred + g.chunk);
    var p := PushSplit(g, m, next);
    var part := For(r.conn, rest[..g.chunk], c);
    PushSplitAdds(g, m, next, c);
    SendMoves(g, p, Send(r.conn, r.order, rest[..g.chunk]), link, c);
    MovingSame(m, p, c);
    CutTail(g, m, c);
    var s := SendBuffer(g, p, Send(r.conn, r.order, rest[..g.chunk]), link);
    MovingSame(s, s.(split := m.split[1..] + [next]), c);
    if link.inUse && !s.lost {
      assert (m.split + [next])[1..] == m.split[1..] + [next];
      assert (Moving(m, c) + part) + Rest(m.split[1..] + [next], c) == Moving(m, c) + (part + Rest(m.split[1..] + [next], c));
    }
  }

  lemma MovingSame(n: Net, s: Net, c: nat)
    requires n.log == s.log && n.pending == s.pending
    ensures Moving(n, c) == Moving(s, c)
  {
  }

  // The chunk and what is left after it make up what was left before it.
  lemma CutTail(g: Config, m: Net, c: nat)
    requires g.chunk > 0 && m.split != []
    requires m.split[0].transferred + g.chunk < |m.split[0].content|
    requires NoSplit(m.split[1..], m.split[0].conn)
    ensures var r := m.split[0];
            var next := r.(order := r.order + 1, transferred := r.transferred + g.chunk);
            For(r.conn, r.content[r.transferred..][..g.chunk], c) + Rest(m.split[1..] + [next], c) == Rest(m.split, c)
  {
    var r := m.split[0];
    var next := r.(order := r.order + 1, transferred := r.transferred + g.chunk);
    RestAppend(m.split[1..], next, c);
    if r.conn == c {
      RestNone(m.split[1..], c);
      Cut(r.content, r.transferred, g.chunk);
    }
  }

  lemma Cut(s: string, from: nat, len: nat)
    requires from + len <= |s|
    ensures s[from..][..len] + s[from + len..] == s[from..]
  {
  }

  lemma SplitLast(g: Config, m: Net, link: Link, c: nat)
    requires g.chunk > 0 && m.pending == [] && m.split != []
    requires m.split[0].transferred < |m.split[0].content| <= m.split[0].transferred + g.chunk
    requires NoSplit(m.split[1..], m.split[0].conn)
    ensures var s := Remaining(g, m, m.split[0], link);
            s.split != [] && (s.lost || Stream(s.(split := s.split[1..]), c) == Stream(m, c))
  {
    hide SendBuffer, Moving, PushSplit, Sent, Queued;
    var r := m.split[0];
    var rest := r.content[r.transferred..];
    SendMoves(g, m, Send(r.conn, r.order, rest), link, c);
    var s := SendBuffer(g, m, Send(r.conn, r.order, rest), link);
    MovingSame(s, s.(split := m.split[1..]), c);
    var part := For(r.conn, rest, c);
    assert (Moving(m, c) + part) + Rest(m.split[1..], c) == Moving(m, c) + (part + Rest(m.split[1..], c));
  }

  // ------------------------------------------------------------- a response

  lemma HttpSendWf(g: Config, n: Net, conn: nat, msg: string, link: Link)
    requires Wf(g, n) && NoSplit(n.split, conn) && msg != ""
    ensures Wf(g, HttpSend(g, n, conn, msg, link)) && (n.lost ==> HttpSend(g, n, conn, msg, link).lost)
  {
    hide SendBuffer, Wf;
    if |msg| > g.chunk {
      PushSplitWf(g, n, Split(conn, 2, msg, g.chunk));
      SendWf(g, PushSplit(g, n, Split(conn, 2, msg, g.chunk)), Send(conn, 1, msg[..g.chunk]), link);
    } else {
      SendWf(g, n, Send(conn, 1, msg), link);
    }
  }

  lemma PushSplitWf(g: Config, n: Net, r: Split)
    requires Wf(g, n) && NoSplit(n.split, r.conn) && r.transferred < |r.content|
    ensures Wf(g, PushSplit(g, n, r)) && (n.lost ==> PushSplit(g, n, r).lost) && g.chunk > 0
  {
  }

  lemma HttpSendAdds(g: Config, n: Net, conn: nat, msg: string, link: Link, c: nat)
    requires Clear(n, conn) && msg != ""
    ensures var s := HttpSend(g, n, conn, msg, link);
            s.lost || Stream(s, c) == Stream(n, c) + For(conn, msg, c)
  {
    hide SendBuffer, Moving, PushSplit, Rest, Sent, Queued;
    if conn == c {
      RestNone(n.split, c);
    }
    if |msg| > g.chunk {
      var r := Split(conn, 2, msg, g.chunk);
      var p := PushSplit(g, n, r);
      PushSplitAdds(g, n, r, c);
      MovingSame(n, p, c);
      SendMoves(g, p, Send(conn, 1, msg[..g.chunk]), link, c);
      FirstChunk(Moving(n, c), Rest(n.split, c), msg, g.chunk, conn, c);
    } else {
      SendMoves(g, n, Send(conn, 1, msg), link, c);
      Commute(Moving(n, c), For(conn, msg, c), Rest(n.split, c));
    }
  }

  lemma FirstChunk(moving: string, rest: string, msg: string, chunk: nat, conn: nat, c: nat)
    requires |msg| > chunk
    requires conn == c ==> rest == ""
    ensures (moving + For(conn, msg[..chunk], c)) + (rest + Tail(Split(conn, 2, msg, chunk), c))
            == (moving + rest) + For(conn, msg, c)
  {
    if conn == c {
      assert msg == msg[..chunk] + msg[chunk..];
      assert moving + rest == moving;
      assert (moving + msg[..chunk]) + msg[chunk..] == moving + msg;
    }
  }

  // A clear response adds its header and message at the end of its own stream.
  lemma ResponseAdds(g: Config, n: Net, conn: nat, header: string, msg: string, hl: Link, ml: Link, c: nat)
    requires Wf(g, n) && Clear(n, conn) && header != ""
    ensures var s := Response(g, n, conn, header, msg, hl, ml);
            Wf(g, s) && (s.lost || (!n.lost && Stream(s, c) == Stream(n, c) + For(conn, header + msg, c)))
  {
    hide SendBuffer, HttpSend, Stream, Wf;
    var r := Send(conn, 0, header);
    var s := SendBuffer(g, n, r, hl);
    SendWf(g, n, r, hl);
    HeaderAdds(g, n, r, hl, c);
    assert header + "" == header;
    if msg != "" {
      HttpSendWf(g, s, conn, msg, ml);
      if !s.lost {
        HttpSendAdds(g, s, conn, msg, ml, c);
        assert (Stream(n, c) + header) + msg == Stream(n, c) + (header + msg);
      }
    }
  }

  lemma HeaderAdds(g: Config, n: Net, r: Send, link: Link, c: nat)
    requires Clear(n, r.conn)
    ensures var s := SendBuffer(g, n, r, link);
            NoSplit(s.split, r.conn) && (n.lost ==> s.lost)
            && (s.lost || (Clear(s, r.conn) && Stream(s, c) == Stream(n, c) + For(r.conn, r.msg, c)))
  {
    hide SendBuffer, Moving, Rest;
    SendMoves(g, n, r, link, c);
    if r.conn == c {
      RestNone(n.split, c);
    }
    Commute(Moving(n, c), For(r.conn, r.msg, c), Rest(n.split, c));
  }

  // ------------------------------------------------------------- runs

  datatype Event =
    | Respond(conn: nat, header: string, msg: string, hl: Link, ml: Link)
    | Checked(up: bool, link: Link)
    | SentDone

  ghost function Step(g: Config, n: Net, e: Event): (s: Net)
    requires Sound(g, n) && (e.Respond? ==> e.header != "")
    ensures Sound(g, s)
  {
    match e
    case Respond(c, h, m, hl, ml) => Response(g, n, c, h, m, hl, ml)
    case Checked(up, link) => StepSound(g, n, up, link); Check(g, n, up, link)
    case SentDone => SentCb(n)
  }

  lemma StepSound(g: Config, n: Net, up: bool, link: Link)
    requires Sound(g, n)
    ensures Sound(g, Check(g, n, up, link))
  {
    hide SendBuffer, Remaining;
    var m := n.(posted := if n.posted > 0 then n.posted - 1 else 0);
    if up && m.pending != [] {
      SendSound(g, m, m.pending[0], link);
    } else if up && m.split != [] {
      RemainingSound(g, m, link);
    }
  }

  lemma SendSound(g: Config, n: Net, r: Send, link: Link)
    requires Sound(g, n) && r.msg != ""
    ensures var s := SendBuffer(g, n, r, link); Sound(g, s) && n.pending <= s.pending && s.split == n.split
  {
  }

  lemma RemainingSound(g: Config, m: Net, link: Link)
    requires Sound(g, m) && m.split != [] && m.split[0].transferred < |m.split[0].content|
    ensures var s := Remaining(g, m, m.split[0], link); Sound(g, s) && m.split <= s.split
  {
    hide SendBuffer;
    var r := m.split[0];
    var rest := r.content[r.transferred..];
    if |rest| > g.chunk {
      var next := r.(order := r.order + 1, transferred := r.transferred + g.chunk);
      SendSound(g, PushSplit(g, m, next), Send(r.conn, r.order, rest[..g.chunk]), link);
    } else {
      SendSound(g, m, Send(r.conn, r.order, rest), link);
    }
  }

  // Every header has bytes in it.
  ghost predicate Formed(es: seq<Event>) {
    forall e | e in es && e.Respond? :: e.header != ""
  }

  ghost function Run(g: Config, es: seq<Event>): (n: Net)
    requires g.chunk > 0 && Formed(es)
    ensures Sound(g, n)
  {
    if es == [] then INIT else Step(g, Run(g, es[..|es| - 1]), es[|es| - 1])
  }

  // Every response of the run starts when its connection is clear.
  ghost predicate Orderly(g: Config, es: seq<Event>)
    requires g.chunk > 0 && Formed(es)
  {
    es == [] ||
    (&& Orderly(g, es[..|es| - 1])
     && (es[|es| - 1].Respond? ==> Clear(Run(g, es[..|es| - 1]), es[|es| - 1].conn)))
  }

  // The headers and messages the run produced for a connection.
  ghost function Due(es: seq<Event>, c: nat): string {
    if es == [] then "" else
    Due(es[..|es| - 1], c)
    + if es[|es| - 1].Respond? then For(es[|es| - 1].conn, es[|es| - 1].header + es[|es| - 1].msg, c) else ""
  }

  lemma {:induction false} RunInvariant(g: Config, es: seq<Event>, c: nat)
    requires g.chunk > 0 && Formed(es) && Orderly(g, es)
    ensures Wf(g, Run(g, es))
    ensures Run(g, es).lost || Stream(Run(g, es), c) == Due(es, c)
  {
    if es != [] {
      var n := Run(g, es[..|es| - 1]);
      RunInvariant(g, es[..|es| - 1], c);
      match es[|es| - 1]
      case Respond(d, h, m, hl, ml) => ResponseAdds(g, n, d, h, m, hl, ml, c);
      case Checked(up, link) => CheckKeeps(g, n, up, link, c);
      case SentDone => MovingSame(n, SentCb(n), c);
    }
  }

  // Safety over whole runs: while nothing was dropped, each connection has been
  // given a prefix of its responses, and all of them once it has nothing queued.
  lemma StreamsInOrder(g: Config, es: seq<Event>, c: nat)
    requires g.chunk > 0 && Formed(es) && Orderly(g, es) && !Run(g, es).lost
    ensures Sent(Run(g, es).log, c) <= Due(es, c)
    ensures NoPending(Run(g, es).pending, c) && NoSplit(Run(g, es).split, c)
            ==> Sent(Run(g, es).log, c) == Due(es, c)
  {
    hide *;
    RunInvariant(g, es, c);
    SentIsPrefix(Run(g, es), c);
  }

  lemma SentIsPrefix(n: Net, c: nat)
    ensures Sent(n.log, c) <= Stream(n, c)
    ensures NoPending(n.pending, c) && NoSplit(n.split, c) ==> Sent(n.log, c) == Stream(n, c)
  {
    if NoPending(n.pending, c) && NoSplit(n.split, c) {
      QueuedNone(n.pending, c);
      RestNone(n.split, c);
    }
  }

  // No run, orderly or not, lossy or not, leaves bytes queued with nothing to wake the sender.
  lemma {:induction false} NeverStalls(g: Config, es: seq<Event>)
    requires g.chunk > 0 && Formed(es)
    ensures Awake(Run(g, es))
  {
    if es != [] {
      NeverStalls(g, es[..|es| - 1]);
      StepAwake(g, Run(g, es[..|es| - 1]), es[|es| - 1]);
    }
  }

  lemma StepAwake(g: Config, n: Net, e: Event)
    requires Sound(g, n) && Awake(n) && (e.Respond? ==> e.header != "")
    ensures Awake(Step(g, n, e))
  {
  }

  // ------------------------------------------------------------- how much is handed over at once

  // Nothing longer than a chunk has been handed over or waits to be.
  ghost predicate Small(g: Config, n: Net) {
    && (forall p | p in n.log :: |p.bytes| <= g.chunk)
    && (forall r | r in n.pending :: |r.msg| <= g.chunk)
  }

  // Every header fits into a chunk; messages may have any length.
  ghost predicate ShortHeaders(g: Config, es: seq<Event>) {
    forall e | e in es && e.Respond? :: |e.header| <= g.chunk
  }

  lemma SendSmall(g: Config, n: Net, r: Send, link: Link)
    requires Small(g, n) && |r.msg| <= g.chunk
    ensures Small(g, SendBuffer(g, n, r, link))
  {
  }

  lemma HttpSendSmall(g: Config, n: Net, conn: nat, msg: string, link: Link)
    requires Small(g, n)
    ensures Small(g, HttpSend(g, n, conn, msg, link))
  {
    hide SendBuffer;
    if |msg| > g.chunk {
      SendSmall(g, PushSplit(g, n, Split(conn, 2, msg, g.chunk)), Send(conn, 1, msg[..g.chunk]), link);
    } else {
      SendSmall(g, n, Send(conn, 1, msg), link);
    }
  }

  lemma RemainingSmall(g: Config, n: Net, r: Split, link: Link)
    requires Small(g, n) && r.transferred <= |r.content|
    ensures Small(g, Remaining(g, n, r, link))
  {
    hide SendBuffer;
    var rest := r.content[r.transferred..];
    if |rest| > g.chunk {
      var next := r.(order := r.order + 1, transferred := r.transferred + g.chunk);
      SendSmall(g, PushSplit(g, n, next), Send(r.conn, r.order, rest[..g.chunk]), link);
    } else {
      SendSmall(g, n, Send(r.conn, r.order, rest), link);
    }
  }

  lemma StepSmall(g: Config, n: Net, e: Event)
    requires Sound(g, n) && Small(g, n) && (e.Respond? ==> 0 < |e.header| <= g.chunk)
    ensures Small(g, Step(g, n, e))
  {
    hide SendBuffer, HttpSend, Remaining;
    match e
    case Respond(c, h, m, hl, ml) =>
      SendSmall(g, n, Send(c, 0, h), hl);
      HttpSendSmall(g, SendBuffer(g, n, Send(c, 0, h), hl), c, m, ml);
    case Checked(up, link) =>
      var w := n.(posted := if n.posted > 0 then n.posted - 1 else 0);
      if up && w.pending != [] {
        assert w.pending[0] in w.pending;
        SendSmall(g, w, w.pending[0], link);
      } else if up && w.split != [] {
        assert w.split[0] in w.split;
        RemainingSmall(g, w, w.split[0], link);
      }
    case SentDone =>
  }

  // Long messages are cut: in every run, orderly or not, nothing longer than a chunk is given to the connection at once.
  lemma {:induction false} PacketsFit(g: Config, es: seq<Event>)
    requires g.chunk > 0 && Formed(es) && ShortHeaders(g, es)
    ensures forall p | p in Run(g, es).log :: |p.bytes| <= g.chunk
    ensures forall r | r in Run(g, es).pending :: |r.msg| <= g.chunk
  {
    if es != [] {
      PacketsFit(g, es[..|es| - 1]);
      StepSmall(g, Run(g, es[..|es| - 1]), es[|es| - 1]);
    }
  }

  // ------------------------------------------------------------- when order is kept

  // A response keeps its place for every header and message exactly when its
  // connection is clear.
  lemma OrderKept(g: Config, n: Net, c: nat)
    requires Wf(g, n) && !n.lost && |n.pending| < g.pendingMax
    ensures Clear(n, c) <==>
            forall h, m | h != "" :: Response(g, n, c, h, m, GOOD, GOOD).lost
              || Stream(Response(g, n, c, h, m, GOOD, GOOD), c) == Stream(n, c) + (h + m)
  {
    if Clear(n, c) {
      forall h: string, m: string | h != ""
        ensures Response(g, n, c, h, m, GOOD, GOOD).lost
                || Stream(Response(g, n, c, h, m, GOOD, GOOD), c) == Stream(n, c) + (h + m)
      {
        ResponseAdds(g, n, c, h, m, GOOD, GOOD, c);
      }
    } else {
      var h := Overtaking(g, n, c);
      assert h + "" == h;
    }
  }

  // A header that visibly overtakes bytes of its own connection.
  lemma Overtaking(g: Config, n: Net, c: nat) returns (h: string)
    requires Wf(g, n) && !n.lost && |n.pending| < g.pendingMax && !Clear(n, c)
    ensures h != "" && !Response(g, n, c, h, "", GOOD, GOOD).lost
    ensures Stream(Response(g, n, c, h, "", GOOD, GOOD), c) != Stream(n, c) + h
  {
    if !NoSplit(n.split, c) {
      RestSome(n.split, c);
    } else {
      QueuedSome(n.pending, c);
    }
    if n.busy {
      h := Other(Rest(n.split, c));
      QueuedAppend(n.pending, Send(c, 0, h), c);
      assert Sent(n.log, c) + (Queued(n.pending, c) + h) == Moving(n, c) + h;
      Overtakes(Moving(n, c), Rest(n.split, c), h);
    } else {
      h := Other(Queued(n.pending, c) + Rest(n.split, c));
      SentAppend(n.log, Packet(c, h), c);
      OvertakesQueue(Sent(n.log, c), Queued(n.pending, c), Rest(n.split, c), h);
    }
  }

  ghost function Other(s: string): (h: string)
    requires s != ""
    ensures |h| == 1 && h[0] != s[0]
  {
    if s[0] == 'H' then "h" else "H"
  }

  lemma Overtakes(before: string, after: string, h: string)
    requires after != "" && |h| == 1 && h[0] != after[0]
    ensures (before + h) + after != (before + after) + h
  {
    assert ((before + h) + after)[|before|] == h[0];
    assert ((before + after) + h)[|before|] == after[0];
  }

  lemma OvertakesQueue(before: string, queue: string, rest: string, h: string)
    requires queue + rest != "" && |h| == 1 && h[0] != (queue + rest)[0]
    ensures ((before + h) + queue) + rest != ((before + queue) + rest) + h
  {
    Overtakes(before, queue + rest, h);
    assert ((before + h) + queue) + rest == (before + h) + (queue + rest);
    assert (before + queue) + rest == before + (queue + rest);
  }

  // ------------------------------------------------------------- draining

  // A check serves the split queue by pushing the next record before popping the
  // old one, so it needs one free place there.
  ghost predicate Roomy(g: Config, n: Net) {
    n.split == [] || |n.split| < g.splitMax
  }

  // Exactly when a check drops bytes.
  lemma CheckLoses(g: Config, n: Net, up: bool, link: Link)
    requires Wf(g, n)
    ensures Check(g, n, up, link).lost <==>
            || n.lost
            || (!up && (n.pending != [] || n.split != []))
            || (up && n.pending != [] && !n.busy && !link.accepts)
            || (up && n.pending == [] && n.split != [] && (if n.busy then link.inUse && g.pendingMax == 0 else !link.accepts))
            || (up && n.pending == [] && n.split != [] && !link.inUse)
            || (up && n.pending == [] && |n.split| == g.splitMax && n.split != []
                && |n.split[0].content| - n.split[0].transferred > g.chunk)
  {
  }

  // Exactly when a response drops bytes: the header is refused, or there is no place left for the message behind it.
  lemma ResponseLoses(g: Config, n: Net, conn: nat, header: string, msg: string, hl: Link, ml: Link)
    ensures Response(g, n, conn, header, msg, hl, ml).lost <==>
            || n.lost
            || (if n.busy then |n.pending| == g.pendingMax else !hl.accepts)
            || (msg != "" && |n.pending| + (if n.busy then 1 else 0) == g.pendingMax)
            || (|msg| > g.chunk && |n.split| == g.splitMax)
  {
  }

  ghost function Left(q: seq<Split>): nat
    requires forall r | r in q :: r.transferred < |r.content|
  {
    if q == [] then 0 else |q[0].content| - q[0].transferred + Left(q[1..])
  }

  lemma {:induction false} LeftAppend(q: seq<Split>, r: Split)
    requires forall p | p in q + [r] :: p.transferred < |p.content|
    ensures forall p | p in q :: p.transferred < |p.content|
    ensures Left(q + [r]) == Left(q) + |r.content| - r.transferred
  {
    assert forall p | p in q :: p in q + [r];
    if q == [] {
      assert (q + [r])[1..] == [];
    } else {
      assert (q + [r])[1..] == q[1..] + [r];
      LeftAppend(q[1..], r);
    }
  }

  ghost function Work(g: Config, n: Net): nat
    requires Sound(g, n)
  {
    |n.pending| + Left(n.split)
  }

  // The sent callback and the check it posts.
  ghost function Round(g: Config, n: Net): (s: Net)
    requires Sound(g, n)
    ensures Sound(g, s)
  {
    StepSound(g, SentCb(n), true, GOOD);
    Check(g, SentCb(n), true, GOOD)
  }

  lemma RoundWorks(g: Config, n: Net)
    requires Wf(g, n) && Roomy(g, n)
    ensures Roomy(g, Round(g, n)) && (Round(g, n).lost ==> n.lost)
    ensures n.pending != [] || n.split != [] ==> Work(g, Round(g, n)) < Work(g, n)
  {
    var m := SentCb(n);
    if n.pending == [] && n.split != [] {
      var r := n.split[0];
      assert r in n.split;
      if |r.content| - r.transferred > g.chunk {
        var next := r.(order := r.order + 1, transferred := r.transferred + g.chunk);
        assert (n.split + [next])[1..] == n.split[1..] + [next];
        LeftAppend(n.split[1..], next);
      }
    }
  }

  lemma RoundKeeps(g: Config, n: Net, c: nat)
    requires Wf(g, n) && Roomy(g, n) && !n.lost
    ensures Wf(g, Round(g, n)) && Stream(Round(g, n), c) == Stream(n, c)
  {
    hide Work, Left, Check, Moving;
    RoundWorks(g, n);
    MovingSame(n, SentCb(n), c);
    CheckKeeps(g, SentCb(n), true, GOOD, c);
    assert Stream(SentCb(n), c) == Stream(n, c);
  }

  // Rounds until both queues are empty.
  ghost function Drained(g: Config, n: Net): (s: Net)
    requires Wf(g, n) && Roomy(g, n) && !n.lost
    decreases Work(g, n)
  {
    RoundWorks(g, n);
    RoundKeeps(g, n, 0);
    if n.pending == [] && n.split == [] then n else Drained(g, Round(g, n))
  }

  // Sent callbacks and the checks they post deliver every stream in full.
  lemma {:induction false} DrainDelivers(g: Config, n: Net, c: nat)
    requires Wf(g, n) && Roomy(g, n) && !n.lost
    ensures Drained(g, n).pending == [] && Drained(g, n).split == [] && !Drained(g, n).lost
    ensures Sent(Drained(g, n).log, c) == Stream(n, c)
    decreases Work(g, n)
  {
    if n.pending == [] && n.split == [] {
      SentIsPrefix(n, c);
    } else {
      RoundWorks(g, n);
      RoundKeeps(g, n, c);
      DrainDelivers(g, Round(g, n), c);
    }
  }
}
