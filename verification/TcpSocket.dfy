/**
 `tcp_socket::send_all` and `receive_exactly` over a byte stream that may transfer any part of what it
 is offered: every short write and every short read the platform can produce.
 */
module TcpSocket {
  import opened Wrappers

  type Byte = x: int | 0 <= x < 256

  datatype Error = NotOpen | EmptyDestination | WroteZeroBytes | SystemError

  datatype Status = Completed | PeerClosed

  datatype Received = Received(bytes: nat, status: Status)

  /** What one call of the platform did: failed, or transferred so many bytes. */
  type Transferred = Option<nat>

  /** Every call from number `first` on transferred at least one byte. */
  ghost predicate AllMoved(calls: seq<Transferred>, first: nat) {
    forall i | first <= i < |calls| :: calls[i].Some? && calls[i].value > 0
  }

  /** From number `first` on there was a last call, which came to `end`, and every call before it transferred something. */
  ghost predicate EndsWith(calls: seq<Transferred>, first: nat, end: Transferred) {
    && first < |calls| && calls[|calls| - 1] == end
    && forall i | first <= i < |calls| - 1 :: calls[i].Some? && calls[i].value > 0
  }

  /** The bytes transferred from call number `first` on. */
  function Moved(calls: seq<Transferred>, first: nat): nat {
    if |calls| <= first then 0
    else
      var last := calls[|calls| - 1];
      Moved(calls[..|calls| - 1], first) + if last.Some? then last.value else 0
  }

  /** One more call. */
  lemma MovedNext(calls: seq<Transferred>, first: nat, c: Transferred)
    requires first <= |calls| && AllMoved(calls, first)
    ensures Moved(calls + [c], first) == Moved(calls, first) + if c.Some? then c.value else 0
    ensures EndsWith(calls + [c], first, c)
    ensures c.Some? && c.value > 0 ==> AllMoved(calls + [c], first)
  {
    assert (calls + [c])[..|calls|] == calls;
  }

  /** `cells` with `data` written from index `from` on. */
  function Spliced(cells: seq<Byte>, from: nat, data: seq<Byte>): (after: seq<Byte>)
    requires from + |data| <= |cells|
    ensures |after| == |cells|
  {
    cells[..from] + data + cells[from + |data|..]
  }

  /** `total` bytes of the stream are in the front of the buffer, and the rest of both is as it was. */
  ghost predicate Taken(stream: seq<Byte>, left: seq<Byte>, buffer: seq<Byte>, after: seq<Byte>, total: nat) {
    && total <= |stream| && total <= |buffer| == |after| && left == stream[total..]
    && (forall i | 0 <= i < total :: after[i] == stream[i])
    && (forall i | total <= i < |buffer| :: after[i] == buffer[i])
  }

  lemma NothingTaken(stream: seq<Byte>, buffer: seq<Byte>)
    ensures Taken(stream, stream, buffer, buffer, 0)
  {
  }

  /** Taking `n` more bytes after `total` is taking `total + n`. */
  lemma TakeMore(stream: seq<Byte>, left: seq<Byte>, buffer: seq<Byte>, after: seq<Byte>, total: nat, n: nat)
    requires Taken(stream, left, buffer, after, total) && n <= |left| && total + n <= |buffer|
    ensures Taken(stream, left[n..], buffer, Spliced(after, total, left[..n]), total + n)
  {
    var next := Spliced(after, total, left[..n]);
    forall i | 0 <= i < total + n ensures next[i] == stream[i] {
      if total <= i { assert left[i - total] == stream[i]; }
    }
  }

  /** What a receive that gave up may have done: taken some bytes off the stream, all of them in the buffer's front. */
  ghost predicate ReceivedPrefix(stream: seq<Byte>, left: seq<Byte>, buffer: seq<Byte>, after: seq<Byte>) {
    exists k: nat :: Taken(stream, left, buffer, after, k)
  }

  /** Exactly the first `k` bytes of the data have been passed on. */
  ghost predicate Sent(before: seq<Byte>, after: seq<Byte>, data: seq<Byte>, k: nat) {
    k <= |data| && after == before + data[..k]
  }

  /** What a send that gave up may have done: passed on a proper prefix of the data. */
  ghost predicate SentPrefix(before: seq<Byte>, after: seq<Byte>, data: seq<Byte>) {
    exists k: nat :: k < |data| && Sent(before, after, data, k)
  }

  lemma SendMore(before: seq<Byte>, after: seq<Byte>, data: seq<Byte>, k: nat, n: nat)
    requires Sent(before, after, data, k) && k + n <= |data|
    ensures Sent(before, after + data[k..][..n], data, k + n)
  {
    assert data[..k + n] == data[..k] + data[k..][..n];
  }

  lemma SentAll(before: seq<Byte>, after: seq<Byte>, data: seq<Byte>)
    requires Sent(before, after, data, |data|)
    ensures after == before + data
  {
    assert data[..|data|] == data;
  }

  class TcpSocket {
    var open: bool
    var outgoing: seq<Byte>  // bytes handed to the network so far
    var incoming: seq<Byte>  // bytes the peer sends before closing, from the next one on
    ghost var sends: seq<Transferred>     // the platform's sends so far
    ghost var receives: seq<Transferred>  // and its receives

    constructor (open: bool, incoming: seq<Byte>)
      ensures this.open == open && outgoing == [] && this.incoming == incoming && sends == [] && receives == []
    {
      this.open, outgoing, this.incoming := open, [], incoming;
      sends, receives := [], [];
    }

    /** The platform's send: any count up to what was offered, zero included, or a system error. */
    method SendTcp(data: seq<Byte>) returns (r: Result<nat, Error>)
      modifies this`outgoing, this`sends
      ensures r.Success? ==> r.value <= |data| && outgoing == old(outgoing) + data[..r.value]
      ensures r.Failure? ==> r.error == SystemError && outgoing == old(outgoing)
      ensures sends == old(sends) + [if r.Success? then Some(r.value) else None]
    {
      var count: nat, fails: bool :| count <= |data|;
      sends := sends + [if fails then None else Some(count)];
      if fails { return Failure(SystemError); }
      outgoing := outgoing + data[..count];
      r := Success(count);
    }

    /** The platform's receive: at least one byte unless the stream has ended, or a system error. */
    method ReceiveTcp(destination: array<Byte>, from: nat) returns (r: Result<nat, Error>)
      requires from < destination.Length
      modifies this`incoming, this`receives, destination
      ensures receives == old(receives) + [if r.Success? then Some(r.value) else None]
      ensures r.Failure? ==> r.error == SystemError && incoming == old(incoming) && destination[..] == old(destination[..])
      ensures r.Success? ==>
                && r.value <= |old(incoming)| && r.value <= destination.Length - from
                && (r.value == 0 <==> old(incoming) == [])
                && incoming == old(incoming)[r.value..]
                && destination[..] == Spliced(old(destination[..]), from, old(incoming)[..r.value])
    {
      var room := destination.Length - from;
      var available := if |incoming| < room then |incoming| else room;
      var count: nat, fails: bool :| count <= available && (count == 0 <==> available == 0);
      receives := receives + [if fails then None else Some(count)];
      if fails { return Failure(SystemError); }
      forall i | 0 <= i < count {
        destination[from + i] := incoming[i];
      }
      incoming := incoming[count..];
      r := Success(count);
    }

    method Send(data: seq<Byte>) returns (r: Result<nat, Error>)
      modifies this`outgoing, this`sends
      ensures !open ==> r == Failure(NotOpen) && sends == old(sends)
      ensures open ==> sends == old(sends) + [if r.Success? then Some(r.value) else None]
      ensures r.Success? ==> open && r.value <= |data| && outgoing == old(outgoing) + data[..r.value]
      ensures r.Failure? ==> outgoing == old(outgoing) && r.error == if open then SystemError else NotOpen
    {
      if !open { return Failure(NotOpen); }
      r := SendTcp(data);
    }

    /**
     `send_all`: a normal return means that exactly `data` has been appended, in order, however the
     writes were split; an error leaves the proper prefix of it that the platform took.  It goes on as
     long as the platform takes something, and gives up only where a send failed or took nothing.
     */
    method SendAll(data: seq<Byte>) returns (r: Option<Error>)
      modifies this`outgoing, this`sends
      ensures r.None? ==> outgoing == old(outgoing) + data && (data == [] || open)
      ensures r.Some? ==> SentPrefix(old(outgoing), outgoing, data)
      ensures data == [] ==> r.None?
      ensures data != [] && !open ==> r == Some(NotOpen) && outgoing == old(outgoing)
      ensures r.Some? && open ==> r.value == SystemError || r.value == WroteZeroBytes
      ensures old(sends) <= sends && Sent(old(outgoing), outgoing, data, Moved(sends, |old(sends)|))
      ensures r.None? ==> AllMoved(sends, |old(sends)|)
      ensures r == Some(SystemError) ==> EndsWith(sends, |old(sends)|, None)
      ensures r == Some(WroteZeroBytes) ==> EndsWith(sends, |old(sends)|, Some(0))
      ensures r == Some(NotOpen) ==> sends == old(sends)
    {
      ghost var before, first := outgoing, |sends|;
      var sent := 0;
      while sent < |data|
        invariant Sent(before, outgoing, data, sent)
        invariant sent > 0 ==> open
        invariant old(sends) <= sends && sent == Moved(sends, first) && AllMoved(sends, first)
        invariant !open ==> sends == old(sends)
      {
        ghost var soFar, calls := outgoing, sends;
        var written := Send(data[sent..]);
        MovedNext(calls, first, if written.Success? then Some(written.value) else None);
        if written.Failure? { return Some(written.error); }
        SendMore(before, soFar, data, sent, written.value);
        sent := sent + written.value;
        if written.value == 0 { return Some(WroteZeroBytes); }
      }
      SentAll(before, outgoing, data);
      r := None;
    }

    /** `receive_some` into the part of the destination from `from` on. */
    method ReceiveSome(destination: array<Byte>, from: nat) returns (r: Result<Received, Error>)
      requires from <= destination.Length
      modifies this`incoming, this`receives, destination
      ensures from == destination.Length ==> r == Failure(EmptyDestination)
      ensures from < destination.Length && !open ==> r == Failure(NotOpen)
      ensures from == destination.Length || !open ==> receives == old(receives)
      ensures from < destination.Length && open ==>
                receives == old(receives) + [if r.Success? then Some(r.value.bytes) else None]
      ensures r.Failure? ==> incoming == old(incoming) && destination[..] == old(destination[..])
      ensures r.Failure? && from < destination.Length && open ==> r.error == SystemError
      ensures r.Success? ==>
                && from < destination.Length && open
                && var n := r.value.bytes;
                   && n <= |old(incoming)| && n <= destination.Length - from
                   && r.value.status == (if old(incoming) == [] then PeerClosed else Completed)
                   && (n == 0 <==> r.value.status == PeerClosed)
                   && incoming == old(incoming)[n..]
                   && destination[..] == Spliced(old(destination[..]), from, old(incoming)[..n])
    {
      if from == destination.Length { return Failure(EmptyDestination); }
      if !open { return Failure(NotOpen); }
      var received := ReceiveTcp(destination, from);
      if received.Failure? { return Failure(received.error); }
      if received.value == 0 {
        return Success(Received(0, PeerClosed));
      }
      r := Success(Received(received.value, Completed));
    }

    /**
     `receive_exactly`: either the destination holds exactly the next bytes of the stream, or the peer
     closed and it holds, up front, exactly the bytes that were left, whatever the sizes of the reads.  It
     reads on as long as bytes come, and fails only where a receive failed.
     */
    method ReceiveExactly(destination: array<Byte>) returns (r: Result<Received, Error>)
      modifies this`incoming, this`receives, destination
      ensures destination.Length == 0 ==> r == Failure(EmptyDestination)
      ensures destination.Length > 0 && !open ==> r == Failure(NotOpen)
      ensures destination.Length > 0 && open && r.Failure? ==> r.error == SystemError
      ensures r.Success? ==>
                && destination.Length > 0 && open
                && (r.value.status == Completed <==> destination.Length <= |old(incoming)|)
                && r.value.bytes == (if r.value.status == Completed then destination.Length else |old(incoming)|)
                && Taken(old(incoming), incoming, old(destination[..]), destination[..], r.value.bytes)
      ensures r.Failure? ==> ReceivedPrefix(old(incoming), incoming, old(destination[..]), destination[..])
      ensures old(receives) <= receives
      ensures r.Success? && r.value.status == Completed ==> AllMoved(receives, |old(receives)|)
      ensures r.Success? && r.value.status == PeerClosed ==> EndsWith(receives, |old(receives)|, Some(0))
      ensures r == Failure(SystemError) ==> EndsWith(receives, |old(receives)|, None)
      ensures r.Failure? && r.error != SystemError ==> receives == old(receives)
    {
      NothingTaken(incoming, destination[..]);
      if destination.Length == 0 { return Failure(EmptyDestination); }
      r := ReceiveLoop(destination, incoming, destination[..], |receives|);
    }

    /** The loop of `receive_exactly`: `total` bytes of the stream are in the buffer so far. */
    method ReceiveLoop(destination: array<Byte>, ghost stream: seq<Byte>, ghost buffer: seq<Byte>, ghost first: nat)
      returns (r: Result<Received, Error>)
      requires destination.Length > 0 && incoming == stream && destination[..] == buffer && |receives| == first
      modifies this`incoming, this`receives, destination
      ensures old(receives) <= receives
      ensures !open ==> r == Failure(NotOpen) && receives == old(receives)
      ensures open && r.Failure? ==> r.error == SystemError && EndsWith(receives, first, None)
      ensures r.Failure? ==> ReceivedPrefix(stream, incoming, buffer, destination[..])
      ensures r.Success? ==>
                && open && Taken(stream, incoming, buffer, destination[..], r.value.bytes)
                && if r.value.status == Completed then r.value.bytes == destination.Length && AllMoved(receives, first)
                   else r.value.bytes == |stream| < destination.Length && EndsWith(receives, first, Some(0))
    {
      NothingTaken(stream, buffer);
      var total := 0;
      while total < destination.Length
        invariant Taken(stream, incoming, buffer, destination[..], total)
        invariant total > 0 ==> open
        invariant old(receives) <= receives && AllMoved(receives, first)
        invariant total == 0 ==> receives == old(receives)
      {
        var more := ReceiveMore(destination, total, stream, buffer, first);
        if more.Failure? { return more; }
        total := total + more.value.bytes;
        if more.value.status == PeerClosed { return Success(Received(total, PeerClosed)); }
      }
      r := Success(Received(total, Completed));
    }

    /** One turn of the loop of `receive_exactly`. */
    method ReceiveMore(
        destination: array<Byte>, total: nat, ghost stream: seq<Byte>, ghost buffer: seq<Byte>, ghost first: nat)
      returns (r: Result<Received, Error>)
      requires first <= |receives| && AllMoved(receives, first)
      requires total < destination.Length && Taken(stream, incoming, buffer, destination[..], total)
      modifies this`incoming, this`receives, destination
      ensures old(receives) <= receives && (!open ==> receives == old(receives))
      ensures r == Failure(SystemError) ==> EndsWith(receives, first, None)
      ensures r.Success? ==>
                if r.value.status == Completed then AllMoved(receives, first) else EndsWith(receives, first, Some(0))
      ensures r.Failure? ==> ReceivedPrefix(stream, incoming, buffer, destination[..])
      ensures r.Failure? ==> r.error == if open then SystemError else NotOpen
      ensures r.Success? ==>
                && open && Taken(stream, incoming, buffer, destination[..], total + r.value.bytes)
                && (r.value.status == Completed <==> r.value.bytes > 0)
                && (r.value.status == PeerClosed ==> total == |stream|)
    {
      ghost var left, cells, calls := incoming, destination[..], receives;
      r := ReceiveSome(destination, total);
      if open { MovedNext(calls, first, if r.Success? then Some(r.value.bytes) else None); }
      if r.Failure? {
        assert Taken(stream, left, buffer, cells, total);
      } else {
        TakeMore(stream, left, buffer, cells, total, r.value.bytes);
      }
    }

    method Close()
      modifies this`open
      ensures !open
    {
      open := false;
    }
  }

  function Concat(messages: seq<seq<Byte>>): seq<Byte> {
    if messages == [] then [] else messages[0] + Concat(messages[1..])
  }

  lemma {:induction false} ConcatSnoc(messages: seq<seq<Byte>>, last: seq<Byte>)
    ensures Concat(messages + [last]) == Concat(messages) + last
  {
    if messages == [] {
      assert [] + [last] == [last] && [last][1..] == [];
    } else {
      assert (messages + [last])[1..] == messages[1..] + [last];
      ConcatSnoc(messages[1..], last);
    }
  }

  lemma {:induction false} ConcatFrom(messages: seq<seq<Byte>>, i: nat)
    requires i < |messages|
    ensures Concat(messages[..i]) + messages[i] <= Concat(messages)
  {
    if i > 0 {
      assert messages[..i][1..] == messages[1..][..i - 1];
      ConcatFrom(messages[1..], i - 1);
      assert Concat(messages[..i]) == messages[0] + Concat(messages[1..][..i - 1]);
    }
  }

  lemma CutInside(whole: seq<Byte>, front: seq<Byte>, next: seq<Byte>, k: nat)
    requires front + next <= whole && k <= |next|
    ensures whole[..|front| + k] == front + next[..k]
  {
    assert whole[..|front| + |next|] == front + next;
    assert whole[..|front| + k] == (front + next)[..|front| + k];
  }

  lemma SentInside(before: seq<Byte>, front: seq<Byte>, next: seq<Byte>, whole: seq<Byte>, after: seq<Byte>, k: nat)
    requires front + next <= whole && k < |next| && after == (before + front) + next[..k]
    ensures SentPrefix(before, after, whole)
  {
    CutInside(whole, front, next, k);
    assert after == before + (front + next[..k]);
    assert Sent(before, after, whole, |front| + k);
  }

  /** Giving up inside message `i` leaves a proper prefix of all the messages together. */
  lemma PrefixOfMessages(before: seq<Byte>, sent: seq<Byte>, after: seq<Byte>, messages: seq<seq<Byte>>, i: nat)
    requires i < |messages| && sent == before + Concat(messages[..i]) && SentPrefix(sent, after, messages[i])
    ensures SentPrefix(before, after, Concat(messages))
  {
    ConcatFrom(messages, i);
    var k: nat :| k < |messages[i]| && Sent(sent, after, messages[i], k);
    SentInside(before, Concat(messages[..i]), messages[i], Concat(messages), after, k);
  }

  /** Sends every message with `send_all`; on failure a proper prefix of their concatenation has been sent. */
  method SendMessages(socket: TcpSocket, messages: seq<seq<Byte>>) returns (r: Option<Error>)
    modifies socket`outgoing, socket`sends
    ensures old(socket.sends) <= socket.sends
    ensures socket.open ==> (r.None? <==> AllMoved(socket.sends, |old(socket.sends)|))
    ensures r.None? ==> socket.outgoing == old(socket.outgoing) + Concat(messages)
    ensures r.Some? ==> SentPrefix(old(socket.outgoing), socket.outgoing, Concat(messages))
    ensures r.Some? && socket.open ==> r.value == SystemError || r.value == WroteZeroBytes
  {
    for i := 0 to |messages|
      invariant socket.outgoing == old(socket.outgoing) + Concat(messages[..i])
      invariant old(socket.sends) <= socket.sends
      invariant socket.open ==> AllMoved(socket.sends, |old(socket.sends)|)
    {
      assert messages[..i + 1] == messages[..i] + [messages[i]];
      ConcatSnoc(messages[..i], messages[i]);
      ghost var sent := socket.outgoing;
      var failed := socket.SendAll(messages[i]);
      if failed.Some? {
        PrefixOfMessages(old(socket.outgoing), sent, socket.outgoing, messages, i);
        return failed;
      }
    }
    assert messages[..|messages|] == messages;
    r := None;
  }

  /** Receives messages of the given lengths, each with one `receive_exactly`. */
  method ReceiveMessages(socket: TcpSocket, lengths: seq<nat>, ghost messages: seq<seq<Byte>>)
    returns (r: Result<seq<seq<Byte>>, Error>)
    requires |lengths| == |messages| && socket.open
    requires forall i | 0 <= i < |messages| :: |messages[i]| == lengths[i] > 0
    requires socket.incoming == Concat(messages)
    modifies socket`incoming, socket`receives
    ensures old(socket.receives) <= socket.receives
    ensures r.Success? <==> AllMoved(socket.receives, |old(socket.receives)|)
    ensures r.Success? ==> r.value == messages && socket.incoming == []
    ensures r.Failure? ==> r.error == SystemError
  {
    var got: seq<seq<Byte>> := [];
    for i := 0 to |lengths|
      invariant got == messages[..i] && socket.incoming == Concat(messages[i..])
      invariant old(socket.receives) <= socket.receives && AllMoved(socket.receives, |old(socket.receives)|)
    {
      var buffer := new Byte[lengths[i]];
      assert messages[i..][0] == messages[i] && messages[i..][1..] == messages[i + 1..];
      var received := socket.ReceiveExactly(buffer);
      if received.Failure? { return Failure(received.error); }
      assert buffer[..] == messages[i];
      got := got + [buffer[..]];
    }
    r := Success(got);
  }

  /**
   The pair is the identity: messages sent with `send_all` and received with `receive_exactly` arrive as
   they were, whatever boundaries the writes and the reads had, unless a call of the platform failed or a
   write took nothing.
   */
  method Transfer(messages: seq<seq<Byte>>, lengths: seq<nat>)
    returns (r: Result<seq<seq<Byte>>, Error>, ghost sends: seq<Transferred>, ghost receives: seq<Transferred>)
    requires |lengths| == |messages|
    requires forall i | 0 <= i < |messages| :: |messages[i]| == lengths[i] > 0
    ensures r.Success? ==> r.value == messages
    ensures r.Failure? ==> r.error == SystemError || r.error == WroteZeroBytes
    ensures r.Success? <==> AllMoved(sends, 0) && AllMoved(receives, 0)
  {
    var sender := new TcpSocket(true, []);
    var failed := SendMessages(sender, messages);
    sends, receives := sender.sends, [];
    if failed.Some? { return Failure(failed.value), sends, receives; }
    var receiver := new TcpSocket(true, sender.outgoing);
    r := ReceiveMessages(receiver, lengths, messages);
    receives := receiver.receives;
  }
}
