/**
Message framing (src/net.cpp, src/net.h): a peer's bytes, in whatever chunks they arrive, become messages of a
24-byte header and as many data bytes as it announces. The reference is a machine that takes one byte at a time.
*/
module Framing {

  const HEADER_SIZE := 24
  const MAX_SIZE := 0x0200_0000
  const MAX_PROTOCOL_MESSAGE_LENGTH := 4_000_000

  // ---------------------------------------------------------------- one byte at a time

  /** What has been received of a message. */
  datatype View = View(inData: bool, hdr: seq<nat>, size: nat, data: seq<nat>) {
    predicate Complete() { inData && size == |data| }
  }

  const NewView := View(false, [], 0, [])

  /** The messages so far, and whether the connection is still good. */
  datatype State = State(views: seq<View>, good: bool)

  /** The announced size, four bytes from offset 16, least significant first. */
  function SizeOf(hdr: seq<nat>): nat
    requires |hdr| == 24
  {
    hdr[16] + 0x100 * hdr[17] + 0x1_0000 * hdr[18] + 0x100_0000 * hdr[19]
  }

  /** The message that the next byte belongs to is the last one. */
  function Opened(views: seq<View>): (r: seq<View>)
    ensures r != []
  {
    if views == [] || views[|views| - 1].Complete() then views + [NewView] else views
  }

  function WithLast(views: seq<View>, v: View): (r: seq<View>)
    requires views != []
    ensures |r| == |views|
  {
    views[..|views| - 1] + [v]
  }

  /** A message after one more byte, and whether the connection stays good. */
  function Absorb(v: View, b: nat): (View, bool) {
    if v.inData then (v.(data := v.data + [b]), true)
    else if |v.hdr| + 1 != HEADER_SIZE then (v.(hdr := v.hdr + [b]), true)
    else
      var hdr := v.hdr + [b];
      if SizeOf(hdr) > MAX_SIZE then (v.(hdr := hdr), false)
      else (View(true, hdr, SizeOf(hdr), v.data), SizeOf(hdr) <= MAX_PROTOCOL_MESSAGE_LENGTH)
  }

  function Feed(st: State, b: nat): State {
    if !st.good then st else
      var views := Opened(st.views);
      var (v, good) := Absorb(views[|views| - 1], b);
      State(WithLast(views, v), good)
  }

  function FeedAll(st: State, bytes: seq<nat>): State {
    if bytes == [] then st else Feed(FeedAll(st, bytes[..|bytes| - 1]), bytes[|bytes| - 1])
  }

  lemma {:induction false} FeedAppend(st: State, a: seq<nat>, b: seq<nat>)
    ensures FeedAll(st, a + b) == FeedAll(FeedAll(st, a), b)
  {
    if b == [] {
      assert a + b == a;
    } else {
      var n := |b| - 1;
      FeedAppend(st, a, b[..n]);
      assert (a + b)[..|a| + n] == a + b[..n];
    }
  }

  lemma FeedOne(st: State, b: nat)
    ensures FeedAll(st, [b]) == Feed(st, b)
  {
    assert [b][..0] == [];
  }

  lemma {:induction false} FeedBad(st: State, bytes: seq<nat>)
    requires !st.good
    ensures FeedAll(st, bytes) == st
  {
    if bytes != [] { FeedBad(st, bytes[..|bytes| - 1]); }
  }

  // ---------------------------------------------------------------- chunks

  function Concat(chunks: seq<seq<nat>>): seq<nat> {
    if chunks == [] then [] else Concat(chunks[..|chunks| - 1]) + chunks[|chunks| - 1]
  }

  function FeedChunks(st: State, chunks: seq<seq<nat>>): State {
    if chunks == [] then st else FeedAll(FeedChunks(st, chunks[..|chunks| - 1]), chunks[|chunks| - 1])
  }

  /** How a stream is cut into chunks makes no difference. */
  lemma {:induction false} ChunksDoNotMatter(st: State, chunks: seq<seq<nat>>)
    ensures FeedChunks(st, chunks) == FeedAll(st, Concat(chunks))
  {
    hide FeedAll;
    if chunks == [] {
      FeedNothing(st);
    } else {
      var n := |chunks| - 1;
      ChunksDoNotMatter(st, chunks[..n]);
      FeedAppend(st, Concat(chunks[..n]), chunks[n]);
    }
  }

  lemma FeedNothing(st: State)
    ensures FeedAll(st, []) == st
  {
  }

  // ---------------------------------------------------------------- what holds between bytes

  /** A message being received, within its limits. */
  ghost predicate ViewOk(v: View) {
    && (!v.inData ==> |v.hdr| < HEADER_SIZE && v.data == [] && v.size == 0)
    && (v.inData ==>
         |v.hdr| == HEADER_SIZE && v.size == SizeOf(v.hdr) <= MAX_PROTOCOL_MESSAGE_LENGTH && |v.data| <= v.size)
  }

  /** While the connection is good, all messages but the last are complete. */
  ghost predicate StateOk(st: State) {
    st.good ==>
      && (forall i :: 0 <= i < |st.views| ==> ViewOk(st.views[i]))
      && (forall i :: 0 <= i < |st.views| - 1 ==> st.views[i].Complete())
  }

  lemma FeedKeeps(st: State, b: nat)
    requires StateOk(st)
    ensures StateOk(Feed(st, b))
  {
    if st.good {
      var views := Opened(st.views);
      var v := views[|views| - 1];
      assert ViewOk(v);
      assert Feed(st, b).good ==> ViewOk(Absorb(v, b).0);
    }
  }

  lemma {:induction false} FeedAllKeeps(st: State, bytes: seq<nat>)
    requires StateOk(st)
    ensures StateOk(FeedAll(st, bytes))
  {
    if bytes != [] {
      FeedAllKeeps(st, bytes[..|bytes| - 1]);
      FeedKeeps(FeedAll(st, bytes[..|bytes| - 1]), bytes[|bytes| - 1]);
    }
  }

  // ---------------------------------------------------------------- several bytes of one message

  /** A state whose last message is open. */
  function Receiving(done: seq<View>, v: View): State { State(done + [v], true) }

  /** Part of a header. */
  lemma {:induction false} FeedHeader(done: seq<View>, v: View, bytes: seq<nat>)
    requires !v.inData && |v.hdr| + |bytes| < HEADER_SIZE
    ensures FeedAll(Receiving(done, v), bytes) == Receiving(done, v.(hdr := v.hdr + bytes))
  {
    if bytes == [] {
      assert v.hdr + bytes == v.hdr;
    } else {
      var n := |bytes| - 1;
      FeedHeader(done, v, bytes[..n]);
      var v1 := v.(hdr := v.hdr + bytes[..n]);
      FeedLast(done, v1, bytes[n]);
      assert v.hdr + bytes[..n] + [bytes[n]] == v.hdr + bytes;
    }
  }

  /** The rest of a header, and what it decides. */
  lemma {:induction false} FeedHeaderEnd(done: seq<View>, v: View, bytes: seq<nat>)
    requires !v.inData && |v.hdr| + |bytes| == HEADER_SIZE && bytes != []
    ensures var hdr := v.hdr + bytes;
      FeedAll(Receiving(done, v), bytes) ==
        if SizeOf(hdr) > MAX_SIZE then State(done + [v.(hdr := hdr)], false)
        else State(done + [View(true, hdr, SizeOf(hdr), v.data)], SizeOf(hdr) <= MAX_PROTOCOL_MESSAGE_LENGTH)
  {
    var n := |bytes| - 1;
    FeedHeader(done, v, bytes[..n]);
    var v1 := v.(hdr := v.hdr + bytes[..n]);
    FeedLast(done, v1, bytes[n]);
    assert v.hdr + bytes[..n] + [bytes[n]] == v.hdr + bytes;
  }

  /** Part of the data. */
  lemma {:induction false} FeedData(done: seq<View>, v: View, bytes: seq<nat>)
    requires v.inData && |v.data| + |bytes| <= v.size
    ensures FeedAll(Receiving(done, v), bytes) == Receiving(done, v.(data := v.data + bytes))
  {
    if bytes == [] {
      assert v.data + bytes == v.data;
    } else {
      var n := |bytes| - 1;
      FeedData(done, v, bytes[..n]);
      var v1 := v.(data := v.data + bytes[..n]);
      FeedLast(done, v1, bytes[n]);
      assert v.data + bytes[..n] + [bytes[n]] == v.data + bytes;
    }
  }

  lemma FeedLast(done: seq<View>, v: View, b: nat)
    requires !v.Complete()
    ensures Feed(Receiving(done, v), b) == State(done + [Absorb(v, b).0], Absorb(v, b).1)
  {
    var views := done + [v];
    assert views[..|views| - 1] == done;
  }

  /** Opening a message changes nothing for the bytes that follow. */
  lemma {:induction false} FeedOpened(views: seq<View>, bytes: seq<nat>)
    requires bytes != []
    ensures FeedAll(State(views, true), bytes) == FeedAll(State(Opened(views), true), bytes)
  {
    var first, rest := bytes[0], bytes[1..];
    assert bytes == [first] + rest;
    FeedAppend(State(views, true), [first], rest);
    FeedAppend(State(Opened(views), true), [first], rest);
    FeedOne(State(views, true), first);
    FeedOne(State(Opened(views), true), first);
    OpenedTwice(views);
  }

  lemma OpenedTwice(views: seq<View>)
    ensures Opened(Opened(views)) == Opened(views)
  {
  }

  /** The number of complete messages, when all but the last are. */
  function Finished(views: seq<View>): int {
    if views == [] then 0 else |views| - 1 + if views[|views| - 1].Complete() then 1 else 0
  }

  // ---------------------------------------------------------------- what a peer sends arrives

  /** A message as sent. */
  datatype Message = Message(start: seq<nat>, command: seq<nat>, checksum: seq<nat>, data: seq<nat>) {
    predicate Ok() {
      |start| == 4 && |command| == 12 && |checksum| == 4 && |data| <= MAX_PROTOCOL_MESSAGE_LENGTH
    }

    function Hdr(): seq<nat> { Header(start, command, |data|, checksum) }
  }

  /** A header as written: start, command, the four bytes of the size from the least significant on, checksum. */
  function Header(start: seq<nat>, command: seq<nat>, n: nat, checksum: seq<nat>): seq<nat> {
    start + command + [n % 256, n / 256 % 256, n / 65536 % 256, n / 16777216] + checksum
  }

  /** Every size that fits in four bytes is read as it was written. */
  lemma SizeIsRead(start: seq<nat>, command: seq<nat>, n: nat, checksum: seq<nat>)
    requires |start| == 4 && |command| == 12 && |checksum| == 4 && n < 0x1_0000_0000
    ensures |Header(start, command, n, checksum)| == HEADER_SIZE && SizeOf(Header(start, command, n, checksum)) == n
  {
    var hdr := Header(start, command, n, checksum);
    assert hdr[16] == n % 256 && hdr[17] == n / 256 % 256 && hdr[18] == n / 65536 % 256 && hdr[19] == n / 16777216;
    Bytes(n);
  }

  lemma Bytes(n: nat)
    ensures n % 256 + 256 * (n / 256 % 256) + 65536 * (n / 65536 % 256) + 16777216 * (n / 16777216) == n
  {
    var a := n / 256;
    var b := a / 256;
    assert n / 65536 == b && n / 16777216 == b / 256;
  }

  function Wire(msgs: seq<Message>): seq<nat> {
    if msgs == [] then [] else Wire(msgs[..|msgs| - 1]) + msgs[|msgs| - 1].Hdr() + msgs[|msgs| - 1].data
  }

  function Received(msgs: seq<Message>): (r: seq<View>)
    ensures |r| == |msgs|
    ensures forall i :: 0 <= i < |msgs| ==> r[i].Complete() && r[i].hdr == msgs[i].Hdr() && r[i].data == msgs[i].data
  {
    if msgs == [] then [] else
      var m := msgs[|msgs| - 1];
      Received(msgs[..|msgs| - 1]) + [View(true, m.Hdr(), |m.data|, m.data)]
  }

  /** The messages sent are the messages received, however many and however long. */
  lemma {:induction false} SentIsReceived(msgs: seq<Message>)
    requires forall i :: 0 <= i < |msgs| ==> msgs[i].Ok()
    ensures FeedAll(State([], true), Wire(msgs)) == State(Received(msgs), true)
  {
    hide FeedAll, Opened, SizeOf, Header;
    if msgs == [] {
      FeedNothing(State([], true));
    } else {
      var n := |msgs| - 1;
      var m, before := msgs[n], Received(msgs[..n]);
      SentIsReceived(msgs[..n]);
      FeedAppend(State([], true), Wire(msgs[..n]) + m.Hdr(), m.data);
      FeedAppend(State([], true), Wire(msgs[..n]), m.Hdr());
      SizeIsRead(m.start, m.command, |m.data|, m.checksum);
      FeedOpened(before, m.Hdr());
      OpensNew(before);
      FeedHeaderEnd(before, NewView, m.Hdr());
      assert [] + m.Hdr() == m.Hdr() && [] + m.data == m.data;
      FeedData(before, View(true, m.Hdr(), |m.data|, []), m.data);
    }
  }

  lemma OpensNew(views: seq<View>)
    requires forall i :: 0 <= i < |views| ==> views[i].Complete()
    ensures Opened(views) == views + [NewView]
  {
  }

  /**
  A header ends the connection if and only if its size is above the limit, at its last byte and not before; above
  MAX_SIZE not even the size is taken over.
  */
  lemma {:induction false} OversizedFails(msgs: seq<Message>, start: seq<nat>, command: seq<nat>, n: nat,
      checksum: seq<nat>)
    requires forall i :: 0 <= i < |msgs| ==> msgs[i].Ok()
    requires |start| == 4 && |command| == 12 && |checksum| == 4 && n < 0x1_0000_0000
    ensures var hdr := Header(start, command, n, checksum);
      && FeedAll(State([], true), Wire(msgs) + hdr) == State(
           Received(msgs) + [View(n <= 0x0200_0000, hdr, if n <= 0x0200_0000 then n else 0, [])], n <= 4_000_000)
      && FeedAll(State([], true), Wire(msgs) + hdr[..23]).good
  {
    hide FeedAll, Opened, SizeOf, Header;
    var hdr := Header(start, command, n, checksum);
    SizeIsRead(start, command, n, checksum);
    var before := Received(msgs);
    SentIsReceived(msgs);
    FeedAppend(State([], true), Wire(msgs), hdr);
    FeedAppend(State([], true), Wire(msgs), hdr[..23]);
    FeedOpened(before, hdr);
    FeedOpened(before, hdr[..23]);
    OpensNew(before);
    FeedHeaderEnd(before, NewView, hdr);
    FeedHeader(before, NewView, hdr[..23]);
    assert [] + hdr == hdr;
  }
}
