/** Streaming records through a character device: a ring buffer on the writing side, reassembly on
    the reading side. */
module Cdev {
  import opened CdevStream

  const N: nat := 65536 // BUF_LEN

  // ----- the ring -----

  /** `CIRC_CNT`, `CIRC_SPACE` and their variants up to the end of the buffer. */
  function Count(head: nat, tail: nat): nat { (head - tail) % N }

  function Space(head: nat, tail: nat): nat { (tail - (head + 1)) % N }

  function CountToEnd(head: nat, tail: nat): int {
    var end := N - tail;
    var n := (head + end) % N;
    if n < end then n else end
  }

  function SpaceToEnd(head: nat, tail: nat): int {
    var end := N - 1 - head;
    var n := (end + tail) % N;
    if n <= end then n else end + 1
  }

  /** What the ring holds, oldest byte first. */
  function Held(b: seq<Byte>, head: nat, tail: nat): seq<Byte>
    requires |b| == N && head < N && tail < N
  { if tail <= head then b[tail..head] else b[tail..] + b[..head] }

  lemma RingArith(head: nat, tail: nat)
    requires head < N && tail < N
    ensures Count(head, tail) == if tail <= head then head - tail else N - tail + head
    ensures Space(head, tail) == N - 1 - Count(head, tail)
    ensures CountToEnd(head, tail) == if tail <= head then head - tail else N - tail
    ensures SpaceToEnd(head, tail) == if tail <= head then (if tail == 0 then N - 1 - head else N - head)
                                      else tail - 1 - head
  {}

  function Advance(i: nat, k: nat): nat { (i + k) % N }

  lemma Advances(i: nat, k: nat)
    requires i < N && k <= N
    ensures Advance(i, k) == if i + k < N then i + k else i + k - N
  {}

  /** The buffer with `r` copied in from `head` on: `k` bytes up to the end, the rest at the front. */
  ghost predicate CopiedIn(b: seq<Byte>, b': seq<Byte>, head: nat, r: seq<Byte>, k: nat) {
    && |b| == N == |b'| && k <= |r| && head + k <= N && |r| - k <= head
    && b'[head..head + k] == r[..k] && b'[..|r| - k] == r[k..]
    && (forall i :: |r| - k <= i < N && !(head <= i < head + k) ==> b'[i] == b[i])
  }

  lemma AppendStraight(b: seq<Byte>, b': seq<Byte>, head: nat, tail: nat, r: seq<Byte>)
    requires CopiedIn(b, b', head, r, |r|) && head < N && tail < N && head + |r| < N
    requires (tail <= head || head + |r| < tail)
    ensures Held(b', head + |r|, tail) == Held(b, head, tail) + r
  {
    var n := head + |r|;
    assert r[..|r|] == r;
    if tail <= head {
      assert b'[tail..head] == b[tail..head];
      assert b'[tail..n] == b'[tail..head] + b'[head..n];
    } else {
      assert b'[tail..] == b[tail..] && b'[..head] == b[..head];
      assert b'[..n] == b'[..head] + b'[head..n];
      assert b'[tail..] + (b'[..head] + b'[head..n]) == b'[tail..] + b'[..head] + b'[head..n];
    }
  }

  lemma AppendWrapped(b: seq<Byte>, b': seq<Byte>, head: nat, tail: nat, r: seq<Byte>)
    requires head < N && N - head <= |r| && CopiedIn(b, b', head, r, N - head) && tail <= head
    requires |r| - (N - head) < tail
    ensures Held(b', |r| - (N - head), tail) == Held(b, head, tail) + r
  {
    var k := N - head;
    assert b'[tail..head] == b[tail..head];
    assert b'[tail..] == b'[tail..head] + b'[head..head + k];
    assert r == r[..k] + r[k..];
    assert b'[tail..] + b'[..|r| - k] == b'[tail..head] + (r[..k] + r[k..]);
  }

  /** How many bytes go up to the end. */
  function Front(head: nat, tail: nat, len: nat): nat {
    if SpaceToEnd(head, tail) < 0 then 0 else if len <= SpaceToEnd(head, tail) then len else SpaceToEnd(head, tail)
  }

  lemma HeldAfterAppend(b: seq<Byte>, b': seq<Byte>, head: nat, tail: nat, r: seq<Byte>)
    requires head < N && tail < N && |r| <= Space(head, tail) && CopiedIn(b, b', head, r, Front(head, tail, |r|))
    ensures Held(b', Advance(head, |r|), tail) == Held(b, head, tail) + r
  {
    RingArith(head, tail);
    Advances(head, |r|);
    hide Count; hide Space; hide SpaceToEnd; hide CountToEnd; hide Advance; hide CopiedIn; hide Held;
    if head + |r| < N { AppendStraight(b, b', head, tail, r); } else { AppendWrapped(b, b', head, tail, r); }
  }

  lemma HeldAfterWrite(b: seq<Byte>, head: nat, tail: nat, wr: nat)
    requires |b| == N && head < N && tail < N && wr <= CountToEnd(head, tail)
    ensures tail + wr <= N && b[tail..tail + wr] + Held(b, head, Advance(tail, wr)) == Held(b, head, tail)
    ensures Space(head, Advance(tail, wr)) == Space(head, tail) + wr
  {
    RingArith(head, tail);
    Advances(tail, wr);
    RingArith(head, Advance(tail, wr));
    hide Count; hide Space; hide SpaceToEnd; hide CountToEnd; hide Advance;
    if tail <= head {
      assert b[tail..head] == b[tail..tail + wr] + b[tail + wr..head];
    } else {
      assert b[tail..] == b[tail..tail + wr] + b[tail + wr..];
      if tail + wr < N {
        assert b[tail..tail + wr] + (b[tail + wr..] + b[..head]) == b[tail..] + b[..head];
      }
    }
  }

  // ----- the writing side -----

  class Pusher {
    const buf: array<Byte>
    const writes: nat -> int // what each write call accepts; 0 or less when the device is not ready
    var calls: nat
    var head: nat
    var tail: nat
    var lost: nat
    var connected: bool
    var wire: seq<Byte>           // everything the device accepted
    ghost var sent: seq<Entry>    // the records put into the ring
    ghost var offered: nat        // records broadcast while connected

    constructor (writes: nat -> int)
      ensures Valid() && sent == [] && wire == [] && lost == 0 && offered == 0 && fresh(buf) && connected
    {
      buf := new Byte[N](_ => 0);
      this.writes := writes;
      calls, head, tail, lost, connected, wire, sent, offered := 0, 0, 0, 0, true, [], [], 0;
    }

    /** The device has received the first bytes of the records sent, the ring holds the rest, and every
        record broadcast is sent, counted in a record sent, or counted in `lost`. */
    ghost predicate Valid()
      reads this, buf
    {
      && buf.Length == N && head < N && tail < N
      && wire + Held(buf[..], head, tail) == Flat(AllBytes(sent)) && AllOk(AllBytes(sent))
      && Apps(sent) + Noted(sent) + lost == offered
    }

    method CopyIn(at: nat, s: seq<Byte>)
      requires buf.Length == N && at + |s| <= N
      modifies buf
      ensures buf[at..at + |s|] == s && forall i :: 0 <= i < N && !(at <= i < at + |s|) ==> buf[i] == old(buf[i])
    {
      var k := 0;
      while k < |s|
        invariant 0 <= k <= |s| && (forall i :: 0 <= i < k ==> buf[at + i] == s[i])
        invariant forall i :: 0 <= i < N && !(at <= i < at + k) ==> buf[i] == old(buf[i])
      {
        buf[at + k] := s[k];
        k := k + 1;
      }
    }

    /** The copy of `block_broadcast`, in one or two pieces. */
    method Append(r: seq<Byte>)
      requires buf.Length == N && head < N && tail < N && |r| <= Space(head, tail)
      modifies this`head, buf
      ensures head < N && Held(buf[..], head, tail) == old(Held(buf[..], head, tail)) + r
    {
      RingArith(head, tail);
      hide Count; hide Space; hide CountToEnd; hide Held;
      ghost var b := buf[..];
      var space := SpaceToEnd(head, tail);
      if |r| < space { space := |r|; }
      ghost var k := Front(head, tail, |r|);
      assert space == k;
      hide SpaceToEnd; hide Front;
      CopyIn(head, r[..space]);
      if space < |r| { CopyIn(0, r[space..]); }
      assert buf[head..head + k] == r[..k];
      assert buf[..|r| - k] == r[k..];
      assert CopiedIn(b, buf[..], head, r, k);
      hide CopiedIn;
      HeldAfterAppend(b, buf[..], head, tail, r);
      head := Advance(head, |r|);
    }

    /** A record goes into the ring whole. */
    method Put(r: seq<Byte>, ghost e: Entry)
      requires buf.Length == N && head < N && tail < N && wire + Held(buf[..], head, tail) == Flat(AllBytes(sent))
      requires AllOk(AllBytes(sent))
      requires r == BytesOf(e) && RecordOk(r) && |r| <= Space(head, tail)
      modifies this`head, this`sent, buf
      ensures head < N && wire + Held(buf[..], head, tail) == Flat(AllBytes(sent)) && AllOk(AllBytes(sent))
      ensures sent == old(sent) + [e]
      ensures Apps(sent) == old(Apps(sent)) + (if e.App? then 1
                                               else 0) && Noted(sent) == old(Noted(sent)) + (if e.Lost? then e.count
                                                                                             else 0)
    {
      hide Held; hide Space; hide Flat; hide Apps; hide Noted; hide AllBytes; hide RecordOk;
      ghost var before := Held(buf[..], head, tail);
      Append(r);
      CountOne(sent, e);
      AllBytesOne(sent, e);
      FlatOne(AllBytes(sent), r);
      assert wire + (before + r) == wire + before + r;
      sent := sent + [e];
    }

    /** One write of the ring's first contiguous bytes. */
    method WriteOut() returns (wr: int)
      requires Valid()
      modifies this`calls, this`wire, this`tail
      ensures Valid()
      ensures (wr > 0 ==> wr <= CountToEnd(head, old(tail)) && Space(head, tail) == Space(head, old(tail)) + wr)
      ensures wr <= 0 ==> tail == old(tail) && wire == old(wire)
      ensures old(wire) <= wire && |wire| == |old(wire)| + if wr > 0 then wr else 0
      ensures if head == old(tail) then wr == 0 && calls == old(calls)
              else calls == old(calls) + 1 && (wr > 0 <==> writes(old(calls)) > 0)
    {
      hide Flat; hide Apps; hide Noted; hide AllBytes; hide AllOk; hide Held; hide Space; hide CountToEnd;
      hide Count; hide SpaceToEnd;
      RingArith(head, tail);
      var cnt := CountToEnd(head, tail);
      if cnt == 0 { return 0; }
      wr := writes(calls);
      calls := calls + 1;
      if wr <= 0 { return; }
      if wr > cnt { wr := cnt; }
      HeldAfterWrite(buf[..], head, tail, wr);
      ghost var rest := Held(buf[..], head, Advance(tail, wr));
      assert wire + (buf[..][tail..tail + wr] + rest) == wire + buf[..][tail..tail + wr] + rest;
      assert buf[tail..tail + wr] == buf[..][tail..tail + wr];
      wire := wire + buf[tail..tail + wr];
      tail := Advance(tail, wr);
    }

    /** Since write call `from`, the ring was emptied or the device refused, and not before. */
    ghost predicate DrainedOut(from: nat)
      reads this`calls, this`head, this`tail
    {
      || (head == tail && forall c :: from <= c < calls ==> writes(c) > 0)
      || (from < calls && writes(calls - 1) <= 0 && forall c :: from <= c < calls - 1 ==> writes(c) > 0)
    }

    /** `handle_cdev_event` on a writable device: write until the ring is empty or the device is full;
        a write that makes room for it lets the note of lost records in. */
    method Drain() returns (ghost noted: seq<Entry>)
      requires Valid()
      modifies this`calls, this`wire, this`tail, this`head, this`lost, this`sent, buf
      ensures Valid() && offered == old(offered) && sent == old(sent) + noted
      ensures if noted == [] then lost == old(lost) else old(lost) > 0 && noted == [Lost(old(lost))] && lost == 0
      ensures old(wire) <= wire && calls >= old(calls) && DrainedOut(old(calls))
      ensures noted == [] && lost > 0 ==> |wire| - |old(wire)| <= (LOST_SIZE - 1) * (calls - old(calls))
    {
      noted := [];
      hide Flat; hide Apps; hide Noted; hide AllBytes; hide Held;
      var more := true;
      while more
        invariant Valid() && offered == old(offered)
        invariant sent == old(sent) + noted && old(wire) <= wire && calls >= old(calls)
        invariant if more then forall c :: old(calls) <= c < calls ==> writes(c) > 0 else DrainedOut(old(calls))
        invariant noted == [] && lost > 0 ==> |wire| - |old(wire)| <= (LOST_SIZE - 1) * (calls - old(calls))
        invariant if noted == [] then lost == old(lost) else old(lost) > 0 && noted == [Lost(old(lost))] && lost == 0
        decreases more, lost, N - Space(head, tail)
      {
        RingArith(head, tail);
        var wr := WriteOut();
        if wr <= 0 {
          more := false;
        } else if lost > 0 && wr >= LOST_SIZE {
          Put(LostRecord(lost), Lost(lost));
          noted := [Lost(lost)];
          lost := 0;
        }
      }
    }

    /** `block_broadcast` of an application's record: into the ring, behind a note of earlier losses if
        that got in, or one more lost. */
    method Broadcast(r: seq<Byte>) returns (accepted: bool, ghost noted: seq<Entry>)
      requires Valid() && RecordOk(r)
      modifies this`calls, this`wire, this`tail, this`head, this`lost, this`sent, this`offered, buf
      ensures Valid() && offered == old(offered) + (if connected then 1 else 0) && (accepted ==> connected)
      ensures sent == old(sent) + noted + (if accepted then [App(r)] else [])
      ensures noted == [] || noted == [Lost(old(lost))]
      ensures lost == (if noted == [] then old(lost) else 0) + (if connected && !accepted then 1 else 0)
      ensures old(wire) <= wire
      ensures connected && |r| <= Space(old(head), old(tail)) ==> accepted && noted == [] && wire == old(wire)
      ensures connected && !accepted ==>
                Space(head, tail) < |r| && calls > old(calls) && writes(calls - 1) <= 0
    {
      hide Flat; hide Apps; hide Noted; hide AllBytes; hide Held; hide RecordOk; hide Space; hide AllOk;
      accepted, noted := false, [];
      if !connected { return; }
      if Space(head, tail) < |r| { noted := Drain(); }
      offered := offered + 1;
      if Space(head, tail) >= |r| {
        Put(r, App(r));
        accepted := true;
      } else {
        EmptyTakes(r, head);
        lost := lost + 1;
      }
    }
  }

  /** Any record fits into an empty ring. */
  lemma EmptyTakes(r: seq<Byte>, i: nat)
    requires RecordOk(r) && i < N
    ensures |r| <= Space(i, i)
  {
    RingArith(i, i);
  }

  // ----- the reading side -----

  class Puller {
    const copy: array<Byte>
    var read: nat
    var out: seq<seq<Byte>>     // the records processed
    ghost var got: seq<Byte>    // every byte read from the device

    constructor ()
      ensures Valid() && out == [] && got == [] && fresh(copy) && read == 0
    {
      copy := new Byte[N](_ => 0);
      read, out, got := 0, [], [];
    }

    /** The bytes read are the records processed and the start of one more. */
    ghost predicate Valid()
      reads this, copy
    {
      && copy.Length == N && read <= N && AllOk(out)
      && Flat(out) + copy[..read] == got && Cut(copy[..read])
    }

    method Fill(chunk: seq<Byte>)
      requires copy.Length == N && read + |chunk| <= N
      modifies copy
      ensures copy[..read + |chunk|] == old(copy[..read]) + chunk
    {
      var k := 0;
      while k < |chunk|
        invariant 0 <= k <= |chunk| && copy[..read] == old(copy[..read]) && copy[read..read + k] == chunk[..k]
      {
        copy[read + k] := chunk[k];
        assert copy[read..read + k + 1] == copy[read..read + k] + [chunk[k]];
        k := k + 1;
      }
      assert copy[..read + |chunk|] == copy[..read] + copy[read..read + |chunk|];
    }

    /** The unread rest to the front. */
    method MoveDown(event: nat, n: nat)
      requires copy.Length == N && event + n <= N
      modifies copy
      ensures copy[..n] == old(copy[event..event + n])
    {
      var k := 0;
      while k < n
        invariant 0 <= k <= n && (forall i :: 0 <= i < k ==> copy[i] == old(copy[event + i]))
        invariant forall i :: event + k <= i < event + n ==> copy[i] == old(copy[i])
      {
        copy[k] := copy[event + k];
        k := k + 1;
      }
    }

    /** One turn of the read loop of `handle_cdev_event`: whatever piece of the stream arrives, every
        record that is complete by then is processed, once and in order, and the buffer keeps room. */
    method Receive(chunk: seq<Byte>, ghost rs: seq<seq<Byte>>)
      requires Valid() && |chunk| <= N - read && AllOk(rs) && got + chunk <= Flat(rs)
      modifies this, copy
      ensures Valid() && got == old(got) + chunk && read < MAX_RECORD
      ensures |out| <= |rs| && out == rs[..|out|] && (|out| == |rs| || |Flat(rs[..|out| + 1])| > |got|)
    {
      hide Flat; hide AllOk; hide RecordOk;
      Fill(chunk);
      assert Flat(out) + (old(copy[..read]) + chunk) == got + chunk;
      read := read + |chunk|;
      got := got + chunk;
      var event := TakeWhole(rs);
      if read > 0 { MoveDown(event, read); }
      Finish(rs);
    }

    /** Process the complete records in the buffer; `event` is where the rest starts. */
    method TakeWhole(ghost rs: seq<seq<Byte>>) returns (event: nat)
      requires copy.Length == N && read <= N && AllOk(out) && AllOk(rs) && Flat(out) + copy[..read] == got <= Flat(rs)
      modifies this`read, this`out
      ensures event + read <= N && AllOk(out) && Flat(out) + copy[event..event + read] == got
      ensures Cut(copy[event..event + read])
    {
      hide Flat; hide AllOk; hide RecordOk;
      event := 0;
      assert copy[event..event + read] == copy[..read];
      while read >= HEADER && read >= SizeAt(copy[event..event + read])
        invariant event + read <= N && AllOk(out) && Flat(out) + copy[event..event + read] == got
        decreases read
      {
        ghost var s := copy[event..event + read];
        NextRecord(rs, out, s);
        var size := SizeAt(copy[event..event + read]);
        var r := copy[event..event + size];
        assert s[..size] == r && s[size..] == copy[event + size..event + read];
        read := read - size;
        out := out + [r];
        event := event + size;
      }
    }

    lemma Finish(rs: seq<seq<Byte>>)
      requires copy.Length == N && read <= N && AllOk(out) && AllOk(rs) && got <= Flat(rs)
      requires Flat(out) + copy[..read] == got && Cut(copy[..read])
      ensures read < MAX_RECORD
      ensures |out| <= |rs| && out == rs[..|out|] && (|out| == |rs| || |Flat(rs[..|out| + 1])| > |got|)
    {
      hide Flat; hide RecordOk;
      OneReading(rs, out, copy[..read]);
      var a, b := rs[..|out|], rs[|out|..];
      assert rs == a + b;
      FlatAppend(a, b);
      assert copy[..read] <= Flat(b) by { Suffix(Flat(a), copy[..read], Flat(b)); }
      LeftoverSmall(b, copy[..read]);
    }
  }

  lemma Suffix(a: seq<Byte>, s: seq<Byte>, b: seq<Byte>)
    requires a + s <= a + b
    ensures s <= b
  {
    assert (a + s)[|a|..] == s && (a + b)[|a|..] == b;
    forall i | 0 <= i < |s| ensures s[i] == b[i] { assert (a + s)[|a| + i] == (a + b)[|a| + i]; }
  }

  /** The next complete record in the buffer is the next one of the stream. */
  lemma NextRecord(rs: seq<seq<Byte>>, out: seq<seq<Byte>>, s: seq<Byte>)
    requires AllOk(rs) && AllOk(out) && Flat(out) + s <= Flat(rs) && |s| >= HEADER && |s| >= SizeAt(s)
    ensures SizeAt(s) >= HEADER && RecordOk(s[..SizeAt(s)]) && AllOk(out + [s[..SizeAt(s)]])
    ensures Flat(out + [s[..SizeAt(s)]]) + s[SizeAt(s)..] == Flat(out) + s
    decreases |out|
  {
    var rest := Follow(rs, out, s);
    FirstSize(rest, s);
    var r := s[..SizeAt(s)];
    FlatOne(out, r);
    assert s == r + s[SizeAt(s)..];
    assert Flat(out) + r + s[SizeAt(s)..] == Flat(out) + (r + s[SizeAt(s)..]);
  }

  /** What the stream goes on with after the records already found. */
  lemma {:induction false} Follow(rs: seq<seq<Byte>>, out: seq<seq<Byte>>, s: seq<Byte>) returns (rest: seq<seq<Byte>>)
    requires AllOk(rs) && AllOk(out) && Flat(out) + s <= Flat(rs)
    ensures AllOk(rest) && s <= Flat(rest)
    decreases |out|
  {
    if out == [] {
      rest := rs;
      assert Flat(out) + s == s;
    } else {
      var all := Flat(out) + s;
      assert all == out[0] + (Flat(out[1..]) + s);
      assert all[6] == out[0][6] && all[7] == out[0][7];
      FirstSize(rs, all);
      assert all[|out[0]|..] == Flat(out[1..]) + s;
      rest := Follow(rs[1..], out[1..], s);
    }
  }

  /** `n` bytes of what the device accepted, from where the reader is, reach it: the records it has processed are
      the first of those put into the ring, whatever the sizes of writes and reads. */
  method Transfer(p: Pusher, q: Puller, at: nat, n: nat)
    requires p.Valid() && q.Valid() && p.buf != q.copy && at == |q.got| && q.got <= p.wire && at + n <= |p.wire|
    requires n <= N - q.read
    modifies q, q.copy
    ensures q.Valid() && q.got == p.wire[..at + n] && q.read < N
    ensures |q.out| <= |p.sent| && q.out == AllBytes(p.sent)[..|q.out|]
    ensures |q.out| == |p.sent| || |Flat(AllBytes(p.sent)[..|q.out| + 1])| > |q.got|
  {
    hide Flat; hide AllOk; hide AllBytes; hide Held; hide Cut;
    ghost var rs := AllBytes(p.sent);
    assert p.wire == (p.wire + Held(p.buf[..], p.head, p.tail))[..|p.wire|];
    var chunk := p.wire[at..at + n];
    assert q.got + chunk == p.wire[..at + n];
    q.Receive(chunk, rs);
  }

  // ----- a whole connection -----

  /** A record is broadcast, the device becomes writable, or up to `n` bytes are read from it. */
  datatype Op = Offer(r: seq<Byte>) | Writable | Read(n: nat)

  /** The records broadcast. */
  function Offers(ops: seq<Op>): seq<seq<Byte>> {
    if ops == [] then []
    else Offers(ops[..|ops| - 1]) + if ops[|ops| - 1].Offer? then [ops[|ops| - 1].r] else []
  }

  lemma OffersOne(ops: seq<Op>, op: Op)
    ensures Offers(ops + [op]) == Offers(ops) + if op.Offer? then [op.r] else []
  {
    assert (ops + [op])[..|ops + [op]| - 1] == ops;
  }

  /** The applications' records among those sent. */
  function Records(es: seq<Entry>): seq<seq<Byte>> {
    if es == [] then [] else Records(es[..|es| - 1]) + if es[|es| - 1].App? then [es[|es| - 1].bytes] else []
  }

  lemma RecordsOne(es: seq<Entry>, e: Entry)
    ensures Records(es + [e]) == Records(es) + if e.App? then [e.bytes] else []
  {
    assert (es + [e])[..|es + [e]| - 1] == es;
  }

  /** Those of `rs` that are marked. */
  function Marked(rs: seq<seq<Byte>>, marks: seq<bool>): seq<seq<Byte>>
    requires |rs| == |marks|
  {
    if rs == [] then []
    else Marked(rs[..|rs| - 1], marks[..|rs| - 1]) + if marks[|rs| - 1] then [rs[|rs| - 1]] else []
  }

  lemma MarkedOne(rs: seq<seq<Byte>>, marks: seq<bool>, r: seq<Byte>, mark: bool)
    requires |rs| == |marks|
    ensures Marked(rs + [r], marks + [mark]) == Marked(rs, marks) + if mark then [r] else []
  {
    assert (rs + [r])[..|rs|] == rs && (marks + [mark])[..|rs|] == marks;
  }

  /** What the reader has is the start of what the device accepted, and that of what was sent. */
  lemma Position(p: Pusher, q: Puller)
    requires p.Valid() && q.Valid() && q.got <= p.wire
    ensures q.read < N && |q.out| <= |p.sent| && q.out == AllBytes(p.sent)[..|q.out|]
    ensures |q.out| == |p.sent| || |Flat(AllBytes(p.sent)[..|q.out| + 1])| > |q.got|
  {
    hide Flat; hide AllOk; hide AllBytes; hide Held; hide Cut;
    assert p.wire == (p.wire + Held(p.buf[..], p.head, p.tail))[..|p.wire|];
    q.Finish(AllBytes(p.sent));
  }

  /** A connection, whatever is broadcast, whenever the device is written to and read from, and however much
      each write and read takes: the records processed are the first of those sent, all that have arrived
      whole; the applications' records among those sent are some of those broadcast, in order; and every
      record broadcast is sent, counted in a note sent, or still counted as lost. */
  method Connection(ops: seq<Op>, writes: nat -> int) returns (p: Pusher, q: Puller, ghost marks: seq<bool>)
    requires forall op :: op in ops && op.Offer? ==> RecordOk(op.r)
    ensures p.Valid() && q.Valid() && q.got <= p.wire
    ensures |q.out| <= |p.sent| && q.out == AllBytes(p.sent)[..|q.out|]
    ensures |q.out| == |p.sent| || |Flat(AllBytes(p.sent)[..|q.out| + 1])| > |q.got|
    ensures |marks| == |Offers(ops)| && Records(p.sent) == Marked(Offers(ops), marks)
    ensures Apps(p.sent) + Noted(p.sent) + p.lost == |Offers(ops)|
    ensures |Offers(ops)| < TWO64 && (forall op :: op in ops && op.Offer? ==> !IsNote(op.r)) ==>
              Others(AllBytes(p.sent)) + Told(AllBytes(p.sent)) + p.lost == |Offers(ops)|
  {
    hide Flat; hide AllOk; hide AllBytes; hide Held; hide Cut; hide RecordOk; hide Apps; hide Noted;
    hide Offers; hide Records; hide Marked; hide Told; hide Others; hide IsNote;
    p := new Pusher(writes);
    q := new Puller();
    marks := [];
    Nothing();
    var k, at := 0, 0;
    while k < |ops|
      invariant 0 <= k <= |ops| && at == |q.got| && fresh(p) && fresh(p.buf) && fresh(q) && fresh(q.copy)
      invariant p.buf != q.copy
      invariant p.Valid() && q.Valid() && q.got <= p.wire && p.connected && p.offered == |Offers(ops[..k])|
      invariant |marks| == |Offers(ops[..k])| && Records(p.sent) == Marked(Offers(ops[..k]), marks)
    {
      var op := ops[k];
      assert ops[..k + 1] == ops[..k] + [op];
      OffersOne(ops[..k], op);
      at, marks := Turn(p, q, at, op, Offers(ops[..k]), marks);
      k := k + 1;
    }
    assert ops[..k] == ops;
    Position(p, q);
    if |Offers(ops)| < TWO64 && forall op :: op in ops && op.Offer? ==> !IsNote(op.r) {
      OnlyOffers(ops, p.sent, marks);
      ReadOff(p.sent);
    }
  }

  /** What was sent for an application was broadcast. */
  lemma OnlyOffers(ops: seq<Op>, es: seq<Entry>, marks: seq<bool>)
    requires |marks| == |Offers(ops)| && Records(es) == Marked(Offers(ops), marks)
    requires forall op :: op in ops && op.Offer? ==> !IsNote(op.r)
    ensures forall e :: e in es && e.App? ==> !IsNote(e.bytes)
  {
    hide IsNote;
    forall e | e in es && e.App? ensures !IsNote(e.bytes) {
      InRecords(es, e);
      InMarked(Offers(ops), marks, e.bytes);
      var op := InOffers(ops, e.bytes);
    }
  }

  lemma {:induction false} InRecords(es: seq<Entry>, e: Entry)
    requires e in es && e.App?
    ensures e.bytes in Records(es)
  {
    if es[|es| - 1] != e { InRecords(es[..|es| - 1], e); }
  }

  lemma {:induction false} InMarked(rs: seq<seq<Byte>>, marks: seq<bool>, r: seq<Byte>)
    requires |rs| == |marks| && r in Marked(rs, marks)
    ensures r in rs
  {
    var n := |rs| - 1;
    if r in Marked(rs[..n], marks[..n]) { InMarked(rs[..n], marks[..n], r); }
  }

  lemma {:induction false} InOffers(ops: seq<Op>, r: seq<Byte>) returns (op: Op)
    requires r in Offers(ops)
    ensures op in ops && op == Offer(r)
  {
    var n := |ops| - 1;
    if r in Offers(ops[..n]) { op := InOffers(ops[..n], r); } else { op := ops[n]; }
  }

  lemma Nothing()
    ensures Offers([]) == [] && Records([]) == [] && Marked([], []) == []
  {}

  /** One of these; the reader has read `at` bytes of what the device accepted. */
  method Turn(p: Pusher, q: Puller, at: nat, op: Op, ghost rs: seq<seq<Byte>>, ghost marks: seq<bool>)
    returns (at': nat, ghost marks': seq<bool>)
    requires at == |q.got| && p.Valid() && q.Valid() && p.buf != q.copy && q.got <= p.wire && p.connected
    requires (op.Offer? ==> RecordOk(op.r))
    requires |marks| == |rs| && Records(p.sent) == Marked(rs, marks)
    modifies p, p.buf, q, q.copy
    ensures at' == |q.got| && p.Valid() && q.Valid() && q.got <= p.wire && p.connected
    ensures p.offered == old(p.offered) + (if op.Offer? then 1 else 0)
    ensures var rs' := rs + if op.Offer? then [op.r] else [];
            |marks'| == |rs'| && Records(p.sent) == Marked(rs', marks')
  {
    hide Flat; hide AllOk; hide AllBytes; hide Held; hide Cut; hide RecordOk; hide Apps; hide Noted; hide Records;
    hide Marked;
    at', marks' := at, marks;
    match op {
      case Offer(r) =>
        ghost var before := p.sent;
        var accepted, noted := p.Broadcast(r);
        NotesOnly(before, noted);
        if accepted { RecordsOne(before + noted, App(r)); } else { assert before + noted + [] == before + noted; }
        MarkedOne(rs, marks, r, accepted);
        marks' := marks + [accepted];
      case Writable =>
        ghost var before := p.sent;
        ghost var noted := p.Drain();
        NotesOnly(before, noted);
        assert rs + [] == rs;
      case Read(n) =>
        at' := ReadSome(p, q, at, n);
        assert rs + [] == rs;
    }
  }

  lemma NotesOnly(es: seq<Entry>, noted: seq<Entry>)
    requires noted == [] || (|noted| == 1 && noted[0].Lost?)
    ensures Records(es + noted) == Records(es)
  {
    if noted == [] {
      assert es + noted == es;
    } else {
      assert es + noted == es + [noted[0]];
      RecordsOne(es, noted[0]);
    }
  }

  /** One read: what has been accepted and not read, at most `n` bytes, at most what the buffer takes. */
  method ReadSome(p: Pusher, q: Puller, at: nat, n: nat) returns (at': nat)
    requires at == |q.got| && p.Valid() && q.Valid() && p.buf != q.copy && q.got <= p.wire
    modifies q, q.copy
    ensures at' == |q.got| && q.Valid() && q.got <= p.wire && p.Valid()
  {
    hide Flat; hide AllOk; hide AllBytes; hide Held; hide Cut;
    Position(p, q);
    var m := n;
    if m > N - q.read { m := N - q.read; }
    if m > |p.wire| - at { m := |p.wire| - at; }
    Transfer(p, q, at, m);
    at' := at + m;
  }
}
