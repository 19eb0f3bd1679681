/** Heads on the wire: one peer's heads split into bounded messages, and put
    together again per sender whatever else arrives in between. */
module HeadsExchange {
  import opened Wrappers
  import opened Entries
  import ByteOrder

  const MAX_MESSAGE_BYTES: nat := 256 * 1024

  const MAX_PENDING_HEADS: nat := 0x1_0000

  /** A heads message: every part of a set but the last is marked incomplete. */
  datatype Message = Message(heads: seq<Hash>, incomplete: bool)

  const COMPLETE_FRAME := "{\"type\":\"heads\",\"heads\":[]}"

  const INCOMPLETE_FRAME := "{\"type\":\"heads\",\"heads\":[],\"incomplete\":true}"

  /** The JSON bytes of a message around its heads. */
  function Frame(incomplete: bool): nat { if incomplete then 45 else 27 }

  lemma FrameIsJson()
    ensures Frame(true) == |INCOMPLETE_FRAME| && Frame(false) == |COMPLETE_FRAME|
  {
  }

  /** The bytes a list of heads takes: each as a JSON string, commas between. */
  function ListBytes(width: Hash -> nat, heads: seq<Hash>): nat {
    if heads == [] then 0
    else ListBytes(width, heads[..|heads| - 1]) + width(heads[|heads| - 1]) + if |heads| > 1 then 1 else 0
  }

  function Bytes(width: Hash -> nat, message: Message): nat {
    Frame(message.incomplete) + ListBytes(width, message.heads)
  }

  function Joined(batches: seq<seq<Hash>>): seq<Hash> {
    if batches == [] then [] else Joined(batches[..|batches| - 1]) + batches[|batches| - 1]
  }

  function Messages(batches: seq<seq<Hash>>): (messages: seq<Message>)
    ensures |messages| == |batches|
    ensures forall i :: 0 <= i < |batches| ==> messages[i] == Message(batches[i], i < |batches| - 1)
  {
    seq(|batches|, i requires 0 <= i < |batches| => Message(batches[i], i < |batches| - 1))
  }

  /** Messages that carry `heads` in order, with exactly the last complete. */
  ghost predicate Carries(heads: seq<Hash>, messages: seq<Message>) {
    messages != [] &&
    (exists batches :: messages == Messages(batches) && Joined(batches) == heads) &&
    (forall i :: 0 <= i < |messages| ==> (messages[i].incomplete <==> i < |messages| - 1)) &&
    (heads != [] ==> forall i :: 0 <= i < |messages| ==> messages[i].heads != [])
  }

  /** More than one head is only ever sent together within the bound. */
  ghost predicate Packed(width: Hash -> nat, max: nat, list: seq<Hash>) {
    |list| > 1 ==> Frame(true) + ListBytes(width, list) <= max
  }

  lemma ListBytesAppend(width: Hash -> nat, heads: seq<Hash>, h: Hash)
    ensures ListBytes(width, heads + [h]) == ListBytes(width, heads) + width(h) + if heads != [] then 1 else 0
  {
    assert (heads + [h])[..|heads|] == heads;
  }

  lemma JoinedAppend(batches: seq<seq<Hash>>, batch: seq<Hash>)
    ensures Joined(batches + [batch]) == Joined(batches) + batch
  {
    assert (batches + [batch])[..|batches|] == batches;
  }

  lemma ListBytesOne(width: Hash -> nat, head: Hash)
    ensures ListBytes(width, [head]) == width(head)
  {
    ListBytesAppend(width, [], head);
    assert [] + [head] == [head];
  }

  /** The packer's bookkeeping: the heads read so far are in the full lists and the
      current one, whose size it keeps. */
  ghost predicate Packing(width: Hash -> nat, max: nat, read: seq<Hash>, full: seq<seq<Hash>>, batch: seq<Hash>, size: nat) {
    Joined(full) + batch == read && size == Frame(true) + ListBytes(width, batch) && Packed(width, max, batch) &&
    (forall i :: 0 <= i < |full| ==> full[i] != [] && Packed(width, max, full[i])) &&
    Filled(width, max, full + [batch]) &&
    (if read == [] then batch == [] && full == [] else batch != [])
  }

  /** A list is left for the next only when it has no room for the next one's first head. */
  ghost predicate Filled(width: Hash -> nat, max: nat, batches: seq<seq<Hash>>) {
    forall i :: 0 <= i < |batches| - 1 ==> NoRoom(width, max, batches[i], batches[i + 1])
  }

  ghost predicate NoRoom(width: Hash -> nat, max: nat, list: seq<Hash>, next: seq<Hash>) {
    next != [] && Frame(true) + ListBytes(width, list + [next[0]]) > max
  }

  lemma FilledByNew(width: Hash -> nat, max: nat, full: seq<seq<Hash>>, batch: seq<Hash>, head: Hash)
    requires Filled(width, max, full + [batch]) && NoRoom(width, max, batch, [head])
    ensures Filled(width, max, full + [batch] + [[head]])
  {
    var was, now := full + [batch], full + [batch] + [[head]];
    forall i | 0 <= i < |now| - 1 ensures NoRoom(width, max, now[i], now[i + 1]) {
      assert i < |was| - 1 ==> now[i] == was[i] && now[i + 1] == was[i + 1];
    }
  }

  lemma FilledBySame(width: Hash -> nat, max: nat, full: seq<seq<Hash>>, batch: seq<Hash>, head: Hash)
    requires Filled(width, max, full + [batch]) && (batch == [] ==> full == [])
    ensures Filled(width, max, full + [batch + [head]])
  {
    var was, now := full + [batch], full + [batch + [head]];
    forall i | 0 <= i < |now| - 1 ensures NoRoom(width, max, now[i], now[i + 1]) {
      assert NoRoom(width, max, was[i], was[i + 1]) && now[i] == was[i] && now[i + 1][0] == was[i + 1][0];
    }
  }

  lemma NewList(width: Hash -> nat, max: nat, read: seq<Hash>, full: seq<seq<Hash>>, batch: seq<Hash>, size: nat, head: Hash)
    requires Packing(width, max, read, full, batch, size) && batch != [] && size + width(head) + 1 > max
    ensures Packing(width, max, read + [head], full + [batch], [head], Frame(true) + width(head))
  {
    JoinedAppend(full, batch);
    ListBytesOne(width, head);
    ListBytesAppend(width, batch, head);
    FilledByNew(width, max, full, batch, head);
  }

  lemma SameList(width: Hash -> nat, max: nat, read: seq<Hash>, full: seq<seq<Hash>>, batch: seq<Hash>, size: nat, head: Hash)
    requires Packing(width, max, read, full, batch, size) && (batch == [] || size + width(head) + 1 <= max)
    ensures Packing(width, max, read + [head], full, batch + [head], size + width(head) + if batch != [] then 1 else 0)
  {
    ListBytesAppend(width, batch, head);
    Regrouped(Joined(full), batch, [head]);
    FilledBySame(width, max, full, batch, head);
  }

  /** Packs heads greedily; a head starts a new list only when the current one
      is not empty and would pass the bound. */
  method PackHeads(width: Hash -> nat, heads: seq<Hash>, max: nat) returns (batches: seq<seq<Hash>>)
    ensures batches != [] && Joined(batches) == heads
    ensures forall i :: 0 <= i < |batches| ==> Packed(width, max, batches[i]) && (heads != [] ==> batches[i] != [])
    ensures Filled(width, max, batches) && (heads == [] ==> batches == [[]])
  {
    var full: seq<seq<Hash>> := [];
    var batch: seq<Hash> := [];
    var size: nat := Frame(true);
    for i := 0 to |heads|
      invariant Packing(width, max, heads[..i], full, batch, size)
    {
      var head := heads[i];
      assert heads[..i + 1] == heads[..i] + [head];
      var added := width(head) + if batch != [] then 1 else 0;
      if batch != [] && size + added > max {
        NewList(width, max, heads[..i], full, batch, size, head);
        full := full + [batch];
        batch := [head];
        size := Frame(true) + added - 1;
      } else {
        SameList(width, max, heads[..i], full, batch, size, head);
        batch := batch + [head];
        size := size + added;
      }
    }
    assert heads[..|heads|] == heads;
    JoinedAppend(full, batch);
    batches := full + [batch];
  }

  /** Every head before the last fits an incomplete message of its own, and the
      last one, or the empty list, a complete one. */
  predicate AllFit(width: Hash -> nat, max: nat, heads: seq<Hash>) {
    if heads == [] then Frame(false) <= max
    else
      Frame(false) + width(heads[|heads| - 1]) <= max &&
      forall h :: h in heads[..|heads| - 1] ==> Frame(true) + width(h) <= max
  }

  /** One trigger's heads as messages, in order with exactly the last complete. All
      of them are within the bound exactly when each head can be sent within it. */
  method EncodeHeadsBatches(width: Hash -> nat, heads: seq<Hash>, max: nat) returns (messages: seq<Message>)
    ensures Carries(heads, messages)
    ensures forall i :: 0 <= i < |messages| ==> Packed(width, max, messages[i].heads)
    ensures (forall i :: 0 <= i < |messages| ==> Bytes(width, messages[i]) <= max) <==> AllFit(width, max, heads)
  {
    var batches := PackHeads(width, heads, max);
    messages := Messages(batches);
    assert forall i :: 0 <= i < |messages| ==> messages[i].heads in batches;
    if heads != [] {
      WithinExactly(width, max, batches, heads);
      assert forall i :: 0 <= i < |messages| ==> Bytes(width, messages[i]) == Frame(i < |batches| - 1) + ListBytes(width, batches[i]);
    }
  }

  /** The heads a peer publishes are entry hashes of one width: 'z' and the digits of
      a CID, in quotes. */
  function HeadWidth(h: Hash): nat { 1 + ByteOrder.CID_DIGITS + 2 }

  /** How many of them one message takes. */
  const HEADS_PER_MESSAGE: nat := 2730

  /** The longest published list that a receiver hands on whole: 25 full messages, of
      which 24 wait for the last. */
  const MAX_WHOLE_LIST: nat := 25 * HEADS_PER_MESSAGE

  /** Publishing heads: every message is within the network's bound, and the receiver
      gets the list as it was exactly up to 68250 heads. */
  method EncodeHeads(heads: seq<Hash>) returns (messages: seq<Message>)
    ensures Carries(heads, messages)
    ensures forall i :: 0 <= i < |messages| ==> Bytes(HeadWidth, messages[i]) <= MAX_MESSAGE_BYTES
    ensures HandedOn([], messages) == [heads] <==> |heads| <= MAX_WHOLE_LIST
  {
    var batches := PackHeads(HeadWidth, heads, MAX_MESSAGE_BYTES);
    messages := Messages(batches);
    PublishedInBound(batches);
    PublishedArrives(batches);
  }

  lemma PublishedInBound(batches: seq<seq<Hash>>)
    requires Published(batches)
    ensures forall i :: 0 <= i < |batches| ==> Bytes(HeadWidth, Messages(batches)[i]) <= MAX_MESSAGE_BYTES
  {
    forall i | 0 <= i < |batches| ensures ListBytes(HeadWidth, batches[i]) <= MAX_MESSAGE_BYTES - Frame(true) {
      UniformBytes(batches[i]);
    }
  }

  /** A published list arrives as it was sent exactly up to 68250 heads. */
  lemma PublishedArrives(batches: seq<seq<Hash>>)
    requires Published(batches)
    ensures HandedOn([], Messages(batches)) == [Joined(batches)] <==> |Joined(batches)| <= MAX_WHOLE_LIST
  {
    var list := Completed([], batches);
    OneListCompletes(batches, [], []);
    assert Messages(batches) + [] == Messages(batches) && [list] + [] == [list];
    HandedOnExactly(batches, []);
    assert [] + Joined(batches) == Joined(batches);
    PublishedWhole(batches);
    SameHeadAndTail(list, [], Joined(batches), []);
    assert [Joined(batches)] + [] == [Joined(batches)];
  }

  /** A list of 68251 heads is published within the bound and arrives cut short. */
  method LongListIsCut() returns (heads: seq<Hash>, messages: seq<Message>)
    ensures |heads| == 68251 && Carries(heads, messages)
    ensures forall i :: 0 <= i < |messages| ==> Bytes(HeadWidth, messages[i]) <= MAX_MESSAGE_BYTES
    ensures HandedOn([], messages) != [heads]
  {
    heads := seq(68251, i => i);
    messages := EncodeHeads(heads);
  }

  lemma {:induction false} UniformBytes(list: seq<Hash>)
    ensures ListBytes(HeadWidth, list) == if list == [] then 0 else 96 * |list| - 1
    decreases |list|
  {
    if list != [] {
      UniformBytes(list[..|list| - 1]);
    }
  }

  /** A published list, as the packer splits it. */
  ghost predicate Published(batches: seq<seq<Hash>>) {
    batches != [] && Filled(HeadWidth, MAX_MESSAGE_BYTES, batches) &&
    forall i :: 0 <= i < |batches| ==> Packed(HeadWidth, MAX_MESSAGE_BYTES, batches[i]) && (|batches| > 1 ==> batches[i] != [])
  }

  lemma FullMessage(list: seq<Hash>, next: seq<Hash>)
    requires list != [] && Packed(HeadWidth, MAX_MESSAGE_BYTES, list) && NoRoom(HeadWidth, MAX_MESSAGE_BYTES, list, next)
    ensures |list| == HEADS_PER_MESSAGE
  {
    UniformBytes(list);
    UniformBytes(list + [next[0]]);
  }

  lemma {:induction false} FullMessages(batches: seq<seq<Hash>>)
    requires forall i :: 0 <= i < |batches| ==> |batches[i]| == HEADS_PER_MESSAGE
    ensures |Joined(batches)| == HEADS_PER_MESSAGE * |batches|
    decreases |batches|
  {
    if batches != [] {
      FullMessages(batches[..|batches| - 1]);
    }
  }

  lemma WaitingLength(batches: seq<seq<Hash>>)
    requires Published(batches)
    ensures |Joined(batches[..|batches| - 1])| == HEADS_PER_MESSAGE * (|batches| - 1)
  {
    var n := |batches| - 1;
    forall i | 0 <= i < n ensures |batches[..n][i]| == HEADS_PER_MESSAGE {
      assert NoRoom(HeadWidth, MAX_MESSAGE_BYTES, batches[i], batches[i + 1]);
      FullMessage(batches[i], batches[i + 1]);
    }
    FullMessages(batches[..n]);
  }

  lemma WholeMessages(n: nat, last: nat)
    requires last <= HEADS_PER_MESSAGE && (n > 0 ==> last > 0)
    ensures HEADS_PER_MESSAGE * n <= MAX_PENDING_HEADS <==> HEADS_PER_MESSAGE * n + last <= MAX_WHOLE_LIST
  {
  }

  /** Of a published list, the parts that wait are within the cap exactly up to 68250 heads. */
  lemma PublishedWhole(batches: seq<seq<Hash>>)
    requires Published(batches)
    ensures |Waiting([], batches)| <= MAX_PENDING_HEADS <==> |Joined(batches)| <= MAX_WHOLE_LIST
  {
    var last := batches[|batches| - 1];
    WaitingLength(batches);
    UniformBytes(last);
    WholeMessages(|batches| - 1, |last|);
  }

  /** Under a bound too small for a head the encoder passes it. */
  method OversizedHead() returns (messages: seq<Message>)
    ensures Carries([1, 2], messages)
    ensures exists i :: 0 <= i < |messages| && Bytes(HeadWidth, messages[i]) > 100
  {
    messages := EncodeHeadsBatches(HeadWidth, [1, 2], 100);
    assert [1, 2][..1] == [1 as Hash];
    assert 1 as Hash in [1, 2][..1];
  }

  lemma {:induction false} JoinedElements(batches: seq<seq<Hash>>, h: Hash)
    ensures h in Joined(batches) <==> exists i :: 0 <= i < |batches| && h in batches[i]
    decreases |batches|
  {
    if batches != [] {
      var n := |batches| - 1;
      var init := batches[..n];
      JoinedElements(init, h);
      assert forall i :: 0 <= i < n ==> init[i] == batches[i];
      assert h in Joined(batches) <==> h in Joined(init) || h in batches[n];
    }
  }

  lemma {:induction false} WidthWithin(width: Hash -> nat, list: seq<Hash>, h: Hash)
    requires h in list
    ensures width(h) <= ListBytes(width, list)
    decreases |list|
  {
    var n := |list| - 1;
    assert list == list[..n] + [list[n]];
    if h in list[..n] {
      WidthWithin(width, list[..n], h);
    }
  }

  lemma LastOfJoined(batches: seq<seq<Hash>>, heads: seq<Hash>)
    requires batches != [] && Joined(batches) == heads && batches[|batches| - 1] != []
    ensures var last := batches[|batches| - 1];
            heads[|heads| - 1] == last[|last| - 1] &&
            heads[..|heads| - 1] == Joined(batches[..|batches| - 1]) + last[..|last| - 1]
  {
  }

  lemma EarlierHeads(batches: seq<seq<Hash>>, heads: seq<Hash>, i: nat, h: Hash)
    requires i < |batches| - 1 && Joined(batches) == heads && batches[|batches| - 1] != [] && h in batches[i]
    ensures h in heads[..|heads| - 1]
  {
    var n := |batches| - 1;
    LastOfJoined(batches, heads);
    assert batches[..n][i] == batches[i];
    JoinedElements(batches[..n], h);
  }

  /** A packed list is within the bound as an incomplete message exactly when each of
      its heads is. */
  lemma PackedWithin(width: Hash -> nat, max: nat, list: seq<Hash>)
    requires list != [] && Packed(width, max, list)
    ensures Frame(true) + ListBytes(width, list) <= max <==> forall h :: h in list ==> Frame(true) + width(h) <= max
  {
    forall h | h in list ensures width(h) <= ListBytes(width, list) {
      WidthWithin(width, list, h);
    }
    if |list| == 1 {
      assert list == [list[0]];
      ListBytesOne(width, list[0]);
      assert list[0] in list;
    }
  }

  lemma LastWithin(width: Hash -> nat, max: nat, last: seq<Hash>)
    requires last != [] && Packed(width, max, last)
    ensures Frame(false) + ListBytes(width, last) <= max <==> Frame(false) + width(last[|last| - 1]) <= max
    ensures forall h :: h in last[..|last| - 1] ==> Frame(true) + width(h) <= max
  {
    forall h | h in last ensures width(h) <= ListBytes(width, last) {
      WidthWithin(width, last, h);
    }
    assert last[|last| - 1] in last;
    if |last| == 1 {
      assert last == [last[0]];
      ListBytesOne(width, last[0]);
    }
  }

  /** Every list is non-empty and packed, and the lists join to `heads`. */
  ghost predicate Splits(width: Hash -> nat, max: nat, batches: seq<seq<Hash>>, heads: seq<Hash>) {
    batches != [] && Joined(batches) == heads && forall i :: 0 <= i < |batches| ==> batches[i] != [] && Packed(width, max, batches[i])
  }

  ghost predicate AllInBound(width: Hash -> nat, max: nat, batches: seq<seq<Hash>>) {
    forall i :: 0 <= i < |batches| ==> Frame(i < |batches| - 1) + ListBytes(width, batches[i]) <= max
  }

  lemma HeadFits(width: Hash -> nat, max: nat, batches: seq<seq<Hash>>, heads: seq<Hash>, h: Hash)
    requires Splits(width, max, batches, heads) && AllInBound(width, max, batches) && h in heads[..|heads| - 1]
    ensures Frame(true) + width(h) <= max
  {
    var n := |batches| - 1;
    LastOfJoined(batches, heads);
    LastWithin(width, max, batches[n]);
    if h !in batches[n][..|batches[n]| - 1] {
      JoinedElements(batches[..n], h);
      var i :| 0 <= i < n && h in batches[..n][i];
      WidthWithin(width, batches[i], h);
    }
  }

  lemma BatchFits(width: Hash -> nat, max: nat, batches: seq<seq<Hash>>, heads: seq<Hash>, i: nat)
    requires Splits(width, max, batches, heads) && AllFit(width, max, heads) && i < |batches|
    ensures Frame(i < |batches| - 1) + ListBytes(width, batches[i]) <= max
  {
    LastOfJoined(batches, heads);
    if i < |batches| - 1 {
      forall h | h in batches[i] ensures Frame(true) + width(h) <= max {
        EarlierHeads(batches, heads, i, h);
      }
      PackedWithin(width, max, batches[i]);
    } else {
      LastWithin(width, max, batches[i]);
    }
  }

  lemma WithinExactly(width: Hash -> nat, max: nat, batches: seq<seq<Hash>>, heads: seq<Hash>)
    requires Splits(width, max, batches, heads)
    ensures AllInBound(width, max, batches) <==> AllFit(width, max, heads)
  {
    if AllInBound(width, max, batches) {
      forall h | h in heads[..|heads| - 1] ensures Frame(true) + width(h) <= max {
        HeadFits(width, max, batches, heads, h);
      }
      LastOfJoined(batches, heads);
      LastWithin(width, max, batches[|batches| - 1]);
    }
    if AllFit(width, max, heads) {
      forall i | 0 <= i < |batches| ensures Frame(i < |batches| - 1) + ListBytes(width, batches[i]) <= max {
        BatchFits(width, max, batches, heads, i);
      }
    }
  }

  // ---- Receiving ----------------------------------------------------------

  type PeerId = int

  /** A message as it arrives: its sender, its size, and what its bytes parse to. */
  datatype Received = Received(from: PeerId, size: nat, parsed: Option<Message>)

  /** Oversized or unparseable data is dropped. */
  function Decode(received: Received): Option<Message> {
    if received.size > MAX_MESSAGE_BYTES then None else received.parsed
  }

  datatype Snapshot = Snapshot(from: PeerId, heads: seq<Hash>)

  type Pending = map<PeerId, seq<Hash>>

  function PendingOf(pending: Pending, from: PeerId): seq<Hash> {
    if from in pending then pending[from] else []
  }

  /** One message: the sender's pending parts after it, and the snapshot it completes. */
  function Accept(parts: seq<Hash>, message: Message): (seq<Hash>, Option<seq<Hash>>) {
    var heads := parts + message.heads;
    if message.incomplete then (if |heads| > MAX_PENDING_HEADS then [] else heads, None)
    else ([], Some(heads))
  }

  /** What one sender's messages, starting from `parts`, hand on. */
  function HandedOn(parts: seq<Hash>, messages: seq<Message>): seq<seq<Hash>>
    decreases |messages|
  {
    if messages == [] then []
    else
      var (rest, snapshot) := Accept(parts, messages[0]);
      (if snapshot.Some? then [snapshot.value] else []) + HandedOn(rest, messages[1..])
  }

  /** The messages of one sender in a stream, without what is dropped. */
  function FromSender(stream: seq<Received>, from: PeerId): seq<Message>
    decreases |stream|
  {
    if stream == [] then []
    else FromOne(stream[0], from) + FromSender(stream[1..], from)
  }

  function FromOne(received: Received, from: PeerId): seq<Message> {
    if received.from == from && Decode(received).Some? then [Decode(received).value] else []
  }

  function ListsOf(snapshots: seq<Snapshot>, from: PeerId): seq<seq<Hash>>
    decreases |snapshots|
  {
    if snapshots == [] then []
    else OneList(snapshots[0], from) + ListsOf(snapshots[1..], from)
  }

  function OneList(snapshot: Snapshot, from: PeerId): seq<seq<Hash>> {
    if snapshot.from == from then [snapshot.heads] else []
  }

  class HeadsReceiver {
    var pending: Pending

    constructor ()
      ensures pending == map[]
    {
      pending := map[];
    }

    method Receive(received: Received) returns (snapshot: Option<Snapshot>)
      modifies this
      ensures Decode(received).None? ==> snapshot.None? && unchanged(this)
      ensures Decode(received).Some? ==>
                var (rest, handed) := Accept(PendingOf(old(pending), received.from), Decode(received).value);
                PendingOf(pending, received.from) == rest &&
                snapshot == if handed.Some? then Some(Snapshot(received.from, handed.value)) else None
      ensures forall other :: other != received.from ==> PendingOf(pending, other) == PendingOf(old(pending), other)
    {
      if received.size > MAX_MESSAGE_BYTES || received.parsed.None? {
        return None;
      }
      var from, message := received.from, received.parsed.value;
      var heads := PendingOf(pending, from) + message.heads;
      if message.incomplete {
        if |heads| > MAX_PENDING_HEADS {
          pending := pending - {from};
        } else {
          pending := pending[from := heads];
        }
        return None;
      }
      pending := pending - {from};
      return Some(Snapshot(from, heads));
    }
  }

  lemma {:induction false} ListsAppend(snapshots: seq<Snapshot>, s: Snapshot, from: PeerId)
    ensures ListsOf(snapshots + [s], from) == ListsOf(snapshots, from) + OneList(s, from)
    decreases |snapshots|
  {
    var all := snapshots + [s];
    if snapshots == [] {
      assert all[0] == s && all[1..] == [];
    } else {
      var rest := snapshots[1..];
      assert all[0] == snapshots[0] && all[1..] == rest + [s];
      ListsAppend(rest, s, from);
      Regrouped(OneList(snapshots[0], from), ListsOf(rest, from), OneList(s, from));
    }
  }

  /** Drives a receiver over a whole stream: what it hands on for each sender is
      decided by that sender's messages alone, and is exactly the lists it sent if
      and only if each has at most 65536 heads before its last part. */
  method ReceiveAll(stream: seq<Received>) returns (snapshots: seq<Snapshot>)
    ensures forall from :: ListsOf(snapshots, from) == HandedOn([], FromSender(stream, from))
    ensures forall from, sent :: AllSplit(sent) && FromSender(stream, from) == Stream(sent) ==>
              (ListsOf(snapshots, from) == Lists(sent) <==> AllWithin(sent))
  {
    var receiver := new HeadsReceiver();
    snapshots := [];
    assert stream[0..] == stream;
    for i := 0 to |stream|
      invariant forall from :: ListsOf(snapshots, from) + HandedOn(PendingOf(receiver.pending, from), FromSender(stream[i..], from))
                               == HandedOn([], FromSender(stream, from))
    {
      ghost var before, sofar := receiver.pending, snapshots;
      assert stream[i..][0] == stream[i] && stream[i..][1..] == stream[i + 1..];
      var snapshot := receiver.Receive(stream[i]);
      if snapshot.Some? {
        snapshots := snapshots + [snapshot.value];
      }
      forall from
        ensures ListsOf(snapshots, from) + HandedOn(PendingOf(receiver.pending, from), FromSender(stream[i + 1..], from))
                == HandedOn([], FromSender(stream, from))
      {
        StreamStep(before, receiver.pending, sofar, snapshots, stream, i, from);
      }
    }
    assert stream[|stream|..] == [];
    forall from, sent | AllSplit(sent) && FromSender(stream, from) == Stream(sent)
      ensures ListsOf(snapshots, from) == Lists(sent) <==> AllWithin(sent)
    {
      HeadsRoundTrip(sent);
    }
  }

  lemma NextMessage(parts: seq<Hash>, message: Message, rest: seq<Message>)
    ensures var (parts', handed) := Accept(parts, message);
            HandedOn(parts, [message] + rest) == (if handed.Some? then [handed.value] else []) + HandedOn(parts', rest)
  {
    assert ([message] + rest)[1..] == rest;
  }

  lemma NextReceived(stream: seq<Received>, i: nat, from: PeerId)
    requires i < |stream|
    ensures FromSender(stream[i..], from) == FromOne(stream[i], from) + FromSender(stream[i + 1..], from)
  {
    assert stream[i..][0] == stream[i] && stream[i..][1..] == stream[i + 1..];
  }

  /** A message of one sender changes what is still to come of its own lists only. */
  lemma ReceiveStep(before: Pending, after: Pending, sofar: seq<Snapshot>, snapshots: seq<Snapshot>,
                    sender: PeerId, message: Message, rest: seq<Message>, from: PeerId)
    requires var (parts, handed) := Accept(PendingOf(before, sender), message);
             PendingOf(after, sender) == parts &&
             snapshots == if handed.Some? then sofar + [Snapshot(sender, handed.value)] else sofar
    requires from != sender ==> PendingOf(after, from) == PendingOf(before, from)
    ensures ListsOf(snapshots, from) + HandedOn(PendingOf(after, from), rest) ==
            ListsOf(sofar, from) + HandedOn(PendingOf(before, from), (if sender == from then [message] else []) + rest)
  {
    var (parts, handed) := Accept(PendingOf(before, sender), message);
    if handed.Some? {
      ListsAppend(sofar, Snapshot(sender, handed.value), from);
    }
    if sender == from {
      NextMessage(PendingOf(before, from), message, rest);
      Regrouped(ListsOf(sofar, from), if handed.Some? then [handed.value] else [], HandedOn(parts, rest));
    } else {
      assert ListsOf(sofar, from) + [] == ListsOf(sofar, from);
      assert [] + rest == rest;
    }
  }

  lemma StreamStep(before: Pending, after: Pending, sofar: seq<Snapshot>, snapshots: seq<Snapshot>,
                   stream: seq<Received>, i: nat, from: PeerId)
    requires i < |stream|
    requires if Decode(stream[i]).None? then after == before && snapshots == sofar else
               var (parts, handed) := Accept(PendingOf(before, stream[i].from), Decode(stream[i]).value);
               PendingOf(after, stream[i].from) == parts &&
               snapshots == if handed.Some? then sofar + [Snapshot(stream[i].from, handed.value)] else sofar
    requires from != stream[i].from ==> PendingOf(after, from) == PendingOf(before, from)
    ensures ListsOf(snapshots, from) + HandedOn(PendingOf(after, from), FromSender(stream[i + 1..], from))
            == ListsOf(sofar, from) + HandedOn(PendingOf(before, from), FromSender(stream[i..], from))
  {
    var rest := FromSender(stream[i + 1..], from);
    NextReceived(stream, i, from);
    match Decode(stream[i])
    case None => assert [] + rest == rest;
    case Some(message) => ReceiveStep(before, after, sofar, snapshots, stream[i].from, message, rest, from);
  }

  lemma Regrouped<T>(a: seq<T>, b: seq<T>, c: seq<T>)
    ensures (a + b) + c == a + (b + c)
    ensures b == [] ==> a + c == a + (b + c)
  {
  }

  // ---- The round trip -----------------------------------------------------

  lemma {:induction false} JoinedHead(batches: seq<seq<Hash>>)
    requires batches != []
    ensures Joined(batches) == batches[0] + Joined(batches[1..])
    decreases |batches|
  {
    var n := |batches| - 1;
    var init, last := batches[..n], batches[n];
    assert batches == init + [last];
    JoinedAppend(init, last);
    if n > 0 {
      JoinedHead(init);
      JoinedAppend(init[1..], last);
      assert batches[1..] == init[1..] + [last];
      Regrouped(init[0], Joined(init[1..]), last);
    }
  }

  /** The list a receiver with `parts` pending completes from one sent in `batches`. */
  function Completed(parts: seq<Hash>, batches: seq<seq<Hash>>): seq<Hash>
    requires batches != []
    decreases |batches|
  {
    var heads := parts + batches[0];
    if |batches| == 1 then heads
    else Completed(if |heads| > MAX_PENDING_HEADS then [] else heads, batches[1..])
  }

  lemma {:induction false} OneListCompletes(batches: seq<seq<Hash>>, parts: seq<Hash>, later: seq<Message>)
    requires batches != []
    ensures HandedOn(parts, Messages(batches) + later) == [Completed(parts, batches)] + HandedOn([], later)
    decreases |batches|
  {
    var first := Message(batches[0], |batches| > 1);
    var rest := if |batches| == 1 then later else Messages(batches[1..]) + later;
    assert Messages(batches) + later == [first] + rest;
    NextMessage(parts, first, rest);
    if |batches| > 1 {
      var heads := parts + batches[0];
      OneListCompletes(batches[1..], if |heads| > MAX_PENDING_HEADS then [] else heads, later);
    }
  }

  /** The parts of a list but the last, which wait at the receiver for it. */
  function Waiting(parts: seq<Hash>, batches: seq<seq<Hash>>): seq<Hash>
    requires batches != []
  {
    parts + Joined(batches[..|batches| - 1])
  }

  lemma WaitingSplits(parts: seq<Hash>, batches: seq<seq<Hash>>)
    requires |batches| > 1
    ensures Waiting(parts, batches) == Waiting(parts + batches[0], batches[1..])
  {
    var init, rest := batches[..|batches| - 1], batches[1..];
    JoinedHead(init);
    assert init[1..] == rest[..|rest| - 1];
    Regrouped(parts, init[0], Joined(init[1..]));
  }

  /** A sent list completes as the list that was sent exactly when all its parts but
      the last hold at most 65536 heads; beyond that the receiver has dropped a part
      and hands on a shorter list. */
  lemma {:induction false} HandedOnExactly(batches: seq<seq<Hash>>, parts: seq<Hash>)
    requires batches != [] && |parts| <= MAX_PENDING_HEADS
    ensures Completed(parts, batches) == parts + Joined(batches) <==> |Waiting(parts, batches)| <= MAX_PENDING_HEADS
    ensures |Completed(parts, batches)| <= |parts| + |Joined(batches)|
    decreases |batches|
  {
    JoinedHead(batches);
    if |batches| == 1 {
      assert batches[1..] == [] && batches[..0] == [];
    } else {
      WaitingSplits(parts, batches);
      Regrouped(parts, batches[0], Joined(batches[1..]));
      var heads := parts + batches[0];
      HandedOnExactly(batches[1..], if |heads| > MAX_PENDING_HEADS then [] else heads);
    }
  }

  // ---- A sender's lists, one after another ----------------------------------

  /** The messages of lists sent one after another, each split into parts. */
  function Stream(sent: seq<seq<seq<Hash>>>): seq<Message>
    decreases |sent|
  {
    if sent == [] then [] else Messages(sent[0]) + Stream(sent[1..])
  }

  function Lists(sent: seq<seq<seq<Hash>>>): seq<seq<Hash>>
    decreases |sent|
  {
    if sent == [] then [] else [Joined(sent[0])] + Lists(sent[1..])
  }

  ghost predicate AllSplit(sent: seq<seq<seq<Hash>>>) {
    forall i :: 0 <= i < |sent| ==> sent[i] != []
  }

  ghost predicate AllWithin(sent: seq<seq<seq<Hash>>>)
    requires AllSplit(sent)
  {
    forall i :: 0 <= i < |sent| ==> |Waiting([], sent[i])| <= MAX_PENDING_HEADS
  }

  lemma FirstListIsHandedOn(sent: seq<seq<seq<Hash>>>)
    requires sent != [] && AllSplit(sent)
    ensures HandedOn([], Stream(sent)) == [Completed([], sent[0])] + HandedOn([], Stream(sent[1..]))
    ensures Completed([], sent[0]) == Joined(sent[0]) <==> |Waiting([], sent[0])| <= MAX_PENDING_HEADS
  {
    OneListCompletes(sent[0], [], Stream(sent[1..]));
    HandedOnExactly(sent[0], []);
    assert [] + Joined(sent[0]) == Joined(sent[0]);
  }

  lemma SameHeadAndTail(a: seq<Hash>, s: seq<seq<Hash>>, b: seq<Hash>, t: seq<seq<Hash>>)
    ensures [a] + s == [b] + t <==> a == b && s == t
  {
    assert ([a] + s)[0] == a && ([b] + t)[0] == b;
    assert ([a] + s)[1..] == s && ([b] + t)[1..] == t;
  }

  /** A sender's lists are handed on, in order, exactly when each has at most 65536
      heads before its last part. */
  lemma {:induction false} HeadsRoundTrip(sent: seq<seq<seq<Hash>>>)
    requires AllSplit(sent)
    ensures HandedOn([], Stream(sent)) == Lists(sent) <==> AllWithin(sent)
    decreases |sent|
  {
    if sent != [] {
      var rest := sent[1..];
      FirstListIsHandedOn(sent);
      HeadsRoundTrip(rest);
      SameHeadAndTail(Completed([], sent[0]), HandedOn([], Stream(rest)), Joined(sent[0]), Lists(rest));
      WithinSplits(sent);
    }
  }

  /** The lists a peer publishes one after another arrive as they were, in order,
      exactly when none is longer than 68250 heads. */
  lemma PublishedRoundTrip(sent: seq<seq<seq<Hash>>>)
    requires forall i :: 0 <= i < |sent| ==> Published(sent[i])
    ensures HandedOn([], Stream(sent)) == Lists(sent) <==>
            forall i :: 0 <= i < |sent| ==> |Joined(sent[i])| <= MAX_WHOLE_LIST
  {
    HeadsRoundTrip(sent);
    forall i | 0 <= i < |sent|
      ensures |Waiting([], sent[i])| <= MAX_PENDING_HEADS <==> |Joined(sent[i])| <= MAX_WHOLE_LIST
    {
      PublishedWhole(sent[i]);
    }
  }

  lemma WithinSplits(sent: seq<seq<seq<Hash>>>)
    requires sent != [] && AllSplit(sent)
    ensures AllSplit(sent[1..])
    ensures AllWithin(sent) <==> |Waiting([], sent[0])| <= MAX_PENDING_HEADS && AllWithin(sent[1..])
  {
    assert forall i :: 1 <= i < |sent| ==> sent[1..][i - 1] == sent[i];
  }
}
