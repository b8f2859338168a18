/** The receiving loop of src/net.cpp over whole chunks, proved to do what taking one byte at a time does. */
module NetMessages {
  import opened Framing

  /** A message as it is held: a header buffer of 24 bytes and a data buffer that is grown ahead of need. */
  datatype NetMessage = NetMessage(
    in_data: bool, hdrbuf: seq<nat>, nHdrPos: nat, nMessageSize: nat, vRecv: seq<nat>, nDataPos: nat)
  {
    ghost predicate Ok() {
      && |hdrbuf| == 24 && nHdrPos <= 24 && nDataPos <= |vRecv|
      && (in_data ==> |vRecv| <= nMessageSize) && (!in_data ==> nMessageSize == 0 && vRecv == [])
    }

    ghost function V(): View
      requires Ok()
    {
      View(in_data, hdrbuf[..nHdrPos], nMessageSize, vRecv[..nDataPos])
    }

    predicate Complete() { in_data && nMessageSize == nDataPos }
  }

  function NewMessage(): (m: NetMessage)
    ensures m.Ok() && m.V() == NewView
  {
    NetMessage(false, seq(24, _ => 0), 0, 0, [], 0)
  }

  function Min(a: nat, b: nat): nat { if a < b then a else b }

  /** Copy what belongs to the header; -1 for a size above the limit. Until the header is read, no size is known. */
  method ReadHeader(msg: NetMessage, pch: seq<nat>) returns (handled: int, m: NetMessage)
    requires msg.Ok() && !msg.in_data && msg.nHdrPos < 24 && pch != []
    ensures m.Ok() && m.nDataPos == 0
    ensures var n := Min(24 - msg.nHdrPos, |pch|);
      var hdr := msg.hdrbuf[..msg.nHdrPos] + pch[..n];
      && 0 < n && m.nHdrPos == msg.nHdrPos + n && m.hdrbuf[..m.nHdrPos] == hdr
      && (|hdr| < 24 ==> handled == n && !m.in_data)
      && (|hdr| == 24 ==> (handled < 0 <==> SizeOf(hdr) > MAX_SIZE) && (handled >= 0 ==> handled == n))
      && (|hdr| == 24 ==> m.in_data == (SizeOf(hdr) <= MAX_SIZE) && (m.in_data ==> m.nMessageSize == SizeOf(hdr)))
  {
    var nCopy := Min(24 - msg.nHdrPos, |pch|);
    m := msg.(hdrbuf := msg.hdrbuf[..msg.nHdrPos] + pch[..nCopy] + msg.hdrbuf[msg.nHdrPos + nCopy..],
              nHdrPos := msg.nHdrPos + nCopy);
    assert m.hdrbuf[..m.nHdrPos] == msg.hdrbuf[..msg.nHdrPos] + pch[..nCopy];
    m := m.(nDataPos := 0);
    if m.nHdrPos < 24 { return nCopy, m; }
    assert m.hdrbuf[..24] == m.hdrbuf;
    var nMessageSize := SizeOf(m.hdrbuf);
    if nMessageSize > MAX_SIZE { return -1, m; }
    m := m.(in_data := true, nMessageSize := nMessageSize);
    handled := nCopy;
  }

  /** Copy what belongs to the data, growing the buffer up to 256 KiB ahead. */
  method ReadData(msg: NetMessage, pch: seq<nat>) returns (handled: int, m: NetMessage)
    requires msg.Ok() && msg.in_data && msg.nDataPos < msg.nMessageSize && pch != []
    ensures m.Ok()
    ensures var n := Min(msg.nMessageSize - msg.nDataPos, |pch|);
      handled == n > 0 && m.V() == msg.V().(data := msg.V().data + pch[..n])
    ensures m.Complete() ==> m.vRecv == m.V().data
  {
    var nCopy := Min(msg.nMessageSize - msg.nDataPos, |pch|);
    var vRecv := msg.vRecv;
    if |vRecv| < msg.nDataPos + nCopy {
      var target := Min(msg.nMessageSize, msg.nDataPos + nCopy + 256 * 1024);
      vRecv := vRecv + seq(target - |vRecv|, _ => 0);
    }
    assert vRecv[..msg.nDataPos] == msg.vRecv[..msg.nDataPos];
    var written := vRecv[..msg.nDataPos] + pch[..nCopy] + vRecv[msg.nDataPos + nCopy..];
    m := msg.(vRecv := written, nDataPos := msg.nDataPos + nCopy);
    assert written[..msg.nDataPos + nCopy] == vRecv[..msg.nDataPos] + pch[..nCopy];
    handled := nCopy;
  }

  ghost function ViewsOf(msgs: seq<NetMessage>): (r: seq<View>)
    requires forall i :: 0 <= i < |msgs| ==> msgs[i].Ok()
    ensures |r| == |msgs| && forall i :: 0 <= i < |msgs| ==> r[i] == msgs[i].V()
  {
    if msgs == [] then [] else ViewsOf(msgs[..|msgs| - 1]) + [msgs[|msgs| - 1].V()]
  }

  lemma ViewsSnoc(msgs: seq<NetMessage>, m: NetMessage)
    requires (forall i :: 0 <= i < |msgs| ==> msgs[i].Ok()) && m.Ok()
    ensures ViewsOf(msgs + [m]) == ViewsOf(msgs) + [m.V()]
  {
    assert (msgs + [m])[..|msgs|] == msgs;
  }

  class CNode {
    var vRecvMsg: seq<NetMessage>

    ghost predicate Ok()
      reads this
    {
      forall i :: 0 <= i < |vRecvMsg| ==> vRecvMsg[i].Ok()
    }

    ghost function Views(): seq<View>
      requires Ok()
      reads this
    {
      ViewsOf(vRecvMsg)
    }

    /** Between calls, while the connection is good. */
    ghost predicate Valid()
      reads this
    {
      Ok() && StateOk(State(Views(), true))
    }

    constructor ()
      ensures Valid() && vRecvMsg == []
    {
      vRecvMsg := [];
    }

    /** Get the message being received, or begin a new one. */
    method Open()
      requires Valid()
      modifies this
      ensures Valid() && Views() == Opened(old(Views())) && vRecvMsg != []
    {
      if |vRecvMsg| == 0 || vRecvMsg[|vRecvMsg| - 1].Complete() {
        ViewsSnoc(vRecvMsg, NewMessage());
        vRecvMsg := vRecvMsg + [NewMessage()];
      }
    }

    /** One pass of the loop over the open message; a good pass takes at least one byte. */
    method Pass(pch: seq<nat>) returns (good: bool, handled: nat)
      requires Valid() && vRecvMsg != [] && !vRecvMsg[|vRecvMsg| - 1].Complete() && pch != []
      modifies this
      ensures Ok() && vRecvMsg != [] && |vRecvMsg| == old(|vRecvMsg|)
      ensures 0 < handled <= |pch| && State(Views(), good) == FeedAll(State(old(Views()), true), pch[..handled])
      ensures !good ==> !vRecvMsg[|vRecvMsg| - 1].Complete()
    {
      hide FeedAll, ViewsOf;
      ghost var views := Views();
      var before, msg := vRecvMsg[..|vRecvMsg| - 1], vRecvMsg[|vRecvMsg| - 1];
      ghost var done := ViewsOf(before);
      assert vRecvMsg == before + [msg];
      ViewsSnoc(before, msg);
      assert ViewOk(views[|views| - 1]);
      var taken: int;
      var m: NetMessage;
      if !msg.in_data {
        taken, m := ReadHeader(msg, pch);
        handled := Min(24 - msg.nHdrPos, |pch|);
        HeaderPass(done, msg, m, pch[..handled]);
      } else {
        taken, m := ReadData(msg, pch);
        handled := taken;
        FeedData(done, msg.V(), pch[..handled]);
      }
      vRecvMsg := before + [m];
      ViewsSnoc(before, m);
      good := taken >= 0 && !(m.in_data && m.nMessageSize > MAX_PROTOCOL_MESSAGE_LENGTH);
    }

    /** A chunk of bytes. False asks for disconnection; `complete` says that a message was finished. */
    method ReceiveMsgBytes(pch: seq<nat>) returns (good: bool, complete: bool)
      requires Valid()
      modifies this
      ensures Ok() && State(Views(), good) == FeedAll(State(old(Views()), true), pch) && (good ==> Valid())
      ensures complete <==> Finished(Views()) > Finished(old(Views()))
    {
      hide FeedAll, ViewsOf, Opened;
      ghost var start := State(Views(), true);
      complete := false;
      var p := 0;
      FeedNothing(start);
      while p < |pch|
        invariant p <= |pch| && Valid() && State(Views(), true) == FeedAll(start, pch[..p])
        invariant Finished(Views()) >= Finished(start.views)
        invariant complete <==> Finished(Views()) > Finished(start.views)
        decreases |pch| - p
      {
        ghost var now := Views();
        OpenedFinished(now);
        Open();
        var n: nat;
        good, n := Pass(pch[p..]);
        assert pch[p..][..n] == pch[p..p + n];
        FeedOpened(now, pch[p..p + n]);
        assert pch[..p + n] == pch[..p] + pch[p..p + n];
        FeedAppend(start, pch[..p], pch[p..p + n]);
        FeedAllKeeps(start, pch[..p + n]);
        if !good {
          assert pch == pch[..p + n] + pch[p + n..];
          FeedAppend(start, pch[..p + n], pch[p + n..]);
          FeedBad(State(Views(), false), pch[p + n..]);
          return;
        }
        p := p + n;
        if vRecvMsg[|vRecvMsg| - 1].Complete() { complete := true; }
      }
      assert pch[..|pch|] == pch;
      good := true;
    }

    /** Chunk after chunk, until one asks for disconnection. The result depends only on the bytes, not on the chunks. */
    method ReceiveAll(chunks: seq<seq<nat>>) returns (good: bool)
      requires Valid()
      modifies this
      ensures Ok() && State(Views(), good) == FeedAll(State(old(Views()), true), Concat(chunks))
    {
      hide FeedAll, ViewsOf;
      ghost var start := State(Views(), true);
      ChunksDoNotMatter(start, chunks);
      good := true;
      var i := 0;
      while i < |chunks|
        invariant i <= |chunks| && Valid() && good && State(Views(), true) == FeedChunks(start, chunks[..i])
      {
        assert chunks[..i + 1][..i] == chunks[..i];
        var complete;
        good, complete := ReceiveMsgBytes(chunks[i]);
        i := i + 1;
        if !good {
          ChunksBad(start, chunks, i);
          return;
        }
      }
      assert chunks[..i] == chunks;
    }
  }

  lemma OpenedFinished(views: seq<View>)
    ensures Finished(Opened(views)) == Finished(views) && !Opened(views)[|Opened(views)| - 1].Complete()
  {
  }

  lemma {:induction false} ChunksBad(st: State, chunks: seq<seq<nat>>, i: nat)
    requires i <= |chunks| && !FeedChunks(st, chunks[..i]).good
    ensures FeedChunks(st, chunks) == FeedChunks(st, chunks[..i])
    decreases |chunks| - i
  {
    hide FeedAll;
    if i == |chunks| {
      assert chunks[..i] == chunks;
    } else {
      assert chunks[..i + 1][..i] == chunks[..i];
      FeedBad(FeedChunks(st, chunks[..i]), chunks[i]);
      ChunksBad(st, chunks, i + 1);
    }
  }

  /** What a pass over header bytes does to the views. */
  lemma HeaderPass(done: seq<View>, msg: NetMessage, m: NetMessage, bytes: seq<nat>)
    requires msg.Ok() && m.Ok() && !msg.in_data && msg.nHdrPos < 24 && msg.nDataPos == 0 && m.nDataPos == 0
    requires bytes != [] && msg.nHdrPos + |bytes| <= 24 && m.nHdrPos == msg.nHdrPos + |bytes|
    requires var hdr := msg.hdrbuf[..msg.nHdrPos] + bytes;
      && m.hdrbuf[..m.nHdrPos] == hdr && (|hdr| < 24 ==> !m.in_data)
      && (|hdr| == 24 ==> m.in_data == (SizeOf(hdr) <= MAX_SIZE) && (m.in_data ==> m.nMessageSize == SizeOf(hdr)))
    ensures var hdr := msg.hdrbuf[..msg.nHdrPos] + bytes;
      FeedAll(Receiving(done, msg.V()), bytes) ==
        State(done + [m.V()], |hdr| < 24 || SizeOf(hdr) <= MAX_PROTOCOL_MESSAGE_LENGTH)
  {
    hide FeedAll;
    if msg.nHdrPos + |bytes| < 24 { FeedHeader(done, msg.V(), bytes); } else { FeedHeaderEnd(done, msg.V(), bytes); }
  }
}
