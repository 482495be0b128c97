/** The bounded log of src/base/logger.cpp and its id-based polling. */
module Logger {

  const MAX_LOG_MESSAGES: nat := 20000

  datatype MsgType = NORMAL | INFO | WARNING | CRITICAL

  /** Log::Msg and Log::Peer share what the ring depends on: the id; the rest is the payload. */
  datatype Entry<T> = Entry(id: int, payload: T)

  datatype MsgBody = MsgBody(msgType: MsgType, timestamp: int, message: string)
  datatype PeerBody = PeerBody(blocked: bool, timestamp: int, ip: string, reason: string)

  const INT_MAX: int := 0x7fff_ffff
  const INT_MIN: int := -0x8000_0000

  newtype int32 = n: int | -0x8000_0000 <= n < 0x8000_0000

  /** 32-bit two's complement wrap-around. */
  function Wrap(n: int): (r: int)
    ensures INT_MIN <= r <= INT_MAX
    ensures INT_MIN <= n <= INT_MAX ==> r == n
  {
    (n + 0x8000_0000) % 0x1_0000_0000 - 0x8000_0000
  }

  /** Wrapping in between does not matter. */
  lemma WrapTwice(n: int)
    ensures Wrap(Wrap(n) - 1) == Wrap(n - 1)
  {
  }

  /** The entries of `s` newer than `k`, in order. */
  function NewerThan<T>(s: seq<Entry<T>>, k: int): seq<Entry<T>> {
    if s == [] then []
    else (if s[0].id > k then [s[0]] else []) + NewerThan(s[1..], k)
  }

  /** boost::circular_buffer::push_back: a full buffer drops its oldest entry. */
  function PushBack<T>(ring: seq<T>, x: T): (r: seq<T>)
  {
    if |ring| < MAX_LOG_MESSAGES then ring + [x] else ring[1..] + [x]
  }

  /** The ring after `counter` pushes: consecutive ids ending at counter - 1, at most the capacity. */
  ghost predicate Wellformed<T>(ring: seq<Entry<T>>, counter: nat) {
    && |ring| == (if counter <= MAX_LOG_MESSAGES then counter else MAX_LOG_MESSAGES)
    && forall i :: 0 <= i < |ring| ==> ring[i].id == counter - |ring| + i
  }

  /** loadFromBuffer: the part of the ring from `offset` on. */
  method LoadFromBuffer<T>(src: seq<Entry<T>>, offset: nat) returns (ret: seq<Entry<T>>)
    requires offset <= |src|
    ensures ret == src[offset..]
  {
    ret := [];
    for i := offset to |src|
      invariant ret == src[offset..i]
    {
      ret := ret + [src[i]];
    }
  }

  /** Filtering consecutive ids is slicing. */
  lemma {:induction false} NewerIsSuffix<T>(s: seq<Entry<T>>, first: int, k: int)
    requires forall i :: 0 <= i < |s| ==> s[i].id == first + i
    ensures NewerThan(s, k) == s[if k < first then 0 else if k - first + 1 <= |s| then k - first + 1 else |s|..]
    decreases |s|
  {
    if s != [] {
      NewerIsSuffix(s[1..], first + 1, k);
      assert s[0].id == first;
    }
  }

  /** The body of getMessages and getPeers, its two subtractions wrapping around: right exactly when the
      final difference fits an int, or when there is nothing to return. */
  method GetNewer<T>(ring: seq<Entry<T>>, counter: nat, lastKnownId: int32) returns (ret: seq<Entry<T>>)
    requires Wellformed(ring, counter) && counter <= INT_MAX
    ensures counter - lastKnownId as int - 1 <= INT_MAX ==> ret == NewerThan(ring, lastKnownId as int)
    ensures counter - lastKnownId as int - 1 > INT_MAX ==> ret == []
    ensures ret == NewerThan(ring, lastKnownId as int) <==>
            counter - lastKnownId as int - 1 <= INT_MAX || counter == 0
  {
    var diff := Wrap(Wrap(counter - lastKnownId as int) - 1);
    WrapTwice(counter - lastKnownId as int);
    var size := |ring|;
    NewerIsSuffix(ring, counter - |ring|, lastKnownId as int);
    if lastKnownId == -1 || diff >= size {
      ret := LoadFromBuffer(ring, 0);
      return;
    }
    if diff <= 0 {
      return [];
    }
    ret := LoadFromBuffer(ring, size - diff);
  }

  class Logger {
    var m_messages: seq<Entry<MsgBody>>
    var m_peers: seq<Entry<PeerBody>>
    var m_msgCounter: int
    var m_peerCounter: int
    /** Everything ever added, in order. */
    ghost var allMessages: seq<Entry<MsgBody>>
    ghost var allPeers: seq<Entry<PeerBody>>

    ghost predicate Valid()
      reads this
    {
      && m_msgCounter == |allMessages| && m_peerCounter == |allPeers|
      && m_messages == Retained(allMessages) && m_peers == Retained(allPeers)
      && Numbered(allMessages) && Numbered(allPeers)
    }

    constructor ()
      ensures Valid() && allMessages == [] && allPeers == []
    {
      m_messages, m_peers, m_msgCounter, m_peerCounter := [], [], 0, 0;
      allMessages, allPeers := [], [];
    }

    method AddMessage(message: string, msgType: MsgType, now: int)
      requires Valid() && m_msgCounter < INT_MAX
      modifies this
      ensures Valid()
      ensures allMessages == old(allMessages) + [Entry(old(m_msgCounter), MsgBody(msgType, now, message))]
      ensures m_messages == if |allMessages| <= 20000 then allMessages else allMessages[|allMessages| - 20000..]
      ensures allPeers == old(allPeers) && m_peers == old(m_peers)
    {
      var msg := Entry(m_msgCounter, MsgBody(msgType, now, message));
      m_msgCounter := m_msgCounter + 1;
      RetainedGrows(allMessages, msg);
      m_messages := PushBack(m_messages, msg);
      allMessages := allMessages + [msg];
    }

    method AddPeer(ip: string, blocked: bool, reason: string, now: int)
      requires Valid() && m_peerCounter < INT_MAX
      modifies this
      ensures Valid()
      ensures allPeers == old(allPeers) + [Entry(old(m_peerCounter), PeerBody(blocked, now, ip, reason))]
      ensures m_peers == if |allPeers| <= 20000 then allPeers else allPeers[|allPeers| - 20000..]
      ensures allMessages == old(allMessages) && m_messages == old(m_messages)
    {
      var msg := Entry(m_peerCounter, PeerBody(blocked, now, ip, reason));
      m_peerCounter := m_peerCounter + 1;
      RetainedGrows(allPeers, msg);
      m_peers := PushBack(m_peers, msg);
      allPeers := allPeers + [msg];
    }

    method GetMessages(lastKnownId: int32) returns (ret: seq<Entry<MsgBody>>)
      requires Valid() && m_msgCounter <= INT_MAX
      ensures m_msgCounter - lastKnownId as int - 1 <= INT_MAX ==>
                ret == NewerThan(Retained(allMessages), lastKnownId as int)
      ensures m_msgCounter - lastKnownId as int - 1 <= 0x7fff_ffff ==>
                ret == allMessages[FirstUnseen(|allMessages|, lastKnownId as int)..]
      ensures m_msgCounter - lastKnownId as int - 1 > 0x7fff_ffff ==> ret == []
    {
      RetainedWellformed(allMessages);
      NewerInHistory(allMessages, lastKnownId as int);
      ret := GetNewer(m_messages, m_msgCounter, lastKnownId);
    }

    method GetPeers(lastKnownId: int32) returns (ret: seq<Entry<PeerBody>>)
      requires Valid() && m_peerCounter <= INT_MAX
      ensures m_peerCounter - lastKnownId as int - 1 <= INT_MAX ==>
                ret == NewerThan(Retained(allPeers), lastKnownId as int)
      ensures m_peerCounter - lastKnownId as int - 1 <= 0x7fff_ffff ==>
                ret == allPeers[FirstUnseen(|allPeers|, lastKnownId as int)..]
      ensures m_peerCounter - lastKnownId as int - 1 > 0x7fff_ffff ==> ret == []
    {
      RetainedWellformed(allPeers);
      NewerInHistory(allPeers, lastKnownId as int);
      ret := GetNewer(m_peers, m_peerCounter, lastKnownId);
    }
  }

  /** What the ring keeps of a history: its last MAX_LOG_MESSAGES entries. */
  function Retained<T>(history: seq<T>): seq<T> {
    if |history| <= MAX_LOG_MESSAGES then history else history[|history| - MAX_LOG_MESSAGES..]
  }

  /** The k-th entry of the history has id k. */
  ghost predicate Numbered<T>(history: seq<Entry<T>>) {
    forall i :: 0 <= i < |history| ==> history[i].id == i
  }

  lemma RetainedGrows<T>(history: seq<T>, x: T)
    ensures PushBack(Retained(history), x) == Retained(history + [x])
  {
  }

  lemma RetainedWellformed<T>(history: seq<Entry<T>>)
    requires Numbered(history)
    ensures Wellformed(Retained(history), |history|)
  {
  }

  /** The first of `n` ids that is newer than `k` and still retained. */
  function FirstUnseen(n: nat, k: int): (from: nat)
    ensures k + 1 >= n ==> from == n
    ensures k + 1 < n && k + 1 >= 0 && k + 1 >= n - 20000 ==> from == k + 1
    ensures k + 1 < n && (k + 1 < 0 || k + 1 < n - 20000) ==> from == if n <= 20000 then 0 else n - 20000
  {
    var oldest := if n <= MAX_LOG_MESSAGES then 0 else n - MAX_LOG_MESSAGES;
    if k < oldest then oldest else if k < n then k + 1 else n
  }

  lemma NewerInHistory<T>(history: seq<Entry<T>>, k: int)
    requires Numbered(history)
    ensures NewerThan(Retained(history), k) == history[FirstUnseen(|history|, k)..]
  {
    var ring := Retained(history);
    RetainedWellformed(history);
    NewerIsSuffix(ring, |history| - |ring|, k);
  }

  // ----- a polling client -------------------------------------------------------------

  /** A client asks for what is newer than the last id it received. */
  datatype Client<T> = Client(lastId: int, received: seq<Entry<T>>)

  datatype Event<T> = Add(payload: T) | Poll

  function Polled<T>(c: Client<T>, history: seq<Entry<T>>): Client<T> {
    var news := NewerThan(Retained(history), c.lastId);
    if news == [] then c else Client(news[|news| - 1].id, c.received + news)
  }

  function HistoryAfter<T>(history: seq<Entry<T>>, run: seq<Event<T>>): seq<Entry<T>>
    decreases |run|
  {
    if run == [] then history
    else
      match run[0]
      case Add(x) => HistoryAfter(history + [Entry(|history|, x)], run[1..])
      case Poll => HistoryAfter(history, run[1..])
  }

  function ClientAfter<T>(c: Client<T>, history: seq<Entry<T>>, run: seq<Event<T>>): Client<T>
    decreases |run|
  {
    if run == [] then c
    else
      match run[0]
      case Add(x) => ClientAfter(c, history + [Entry(|history|, x)], run[1..])
      case Poll => ClientAfter(Polled(c, history), history, run[1..])
  }

  /** The client has seen entries of the history only, in order, none twice, and nothing past lastId. */
  ghost predicate Sound<T>(c: Client<T>, history: seq<Entry<T>>) {
    && -1 <= c.lastId < |history|
    && (forall i :: 0 <= i < |c.received| ==> c.received[i].id <= c.lastId)
    && (forall i, j :: 0 <= i < j < |c.received| ==> c.received[i].id < c.received[j].id)
    && (forall i :: 0 <= i < |c.received| ==> c.received[i] in history)
  }

  /** One poll hands over exactly the unseen entries that are still retained. */
  lemma PollGets<T>(c: Client<T>, history: seq<Entry<T>>)
    requires Numbered(history) && -1 <= c.lastId < |history|
    ensures var from := if c.lastId + 1 >= |history| - 20000 then c.lastId + 1 else |history| - 20000;
            0 <= from <= |history| && NewerThan(Retained(history), c.lastId) == history[from..]
  {
    var ring := Retained(history);
    RetainedWellformed(history);
    NewerIsSuffix(ring, |history| - |ring|, c.lastId);
  }

  lemma PollKeepsSound<T>(c: Client<T>, history: seq<Entry<T>>)
    requires Numbered(history) && Sound(c, history)
    ensures Sound(Polled(c, history), history)
  {
    PollGets(c, history);
    var news := NewerThan(Retained(history), c.lastId);
    if news != [] {
      assert forall i :: 0 <= i < |news| ==> news[i] in history && news[i].id == |history| - |news| + i;
      SoundAppend(c, news, history);
    }
  }

  lemma SoundAppend<T>(c: Client<T>, news: seq<Entry<T>>, history: seq<Entry<T>>)
    requires Sound(c, history) && news != [] && |history| - |news| > c.lastId
    requires forall i :: 0 <= i < |news| ==> news[i] in history && news[i].id == |history| - |news| + i
    ensures Sound(Client(news[|news| - 1].id, c.received + news), history)
  {
    var all := c.received + news;
    forall i | 0 <= i < |all|
      ensures all[i] in history && all[i].id <= news[|news| - 1].id
      ensures forall j :: 0 <= j < i ==> all[j].id < all[i].id
    {
      if i < |c.received| {
        assert all[i] == c.received[i];
      } else {
        assert all[i] == news[i - |c.received|];
      }
    }
  }

  lemma AddKeepsSound<T>(c: Client<T>, history: seq<Entry<T>>, x: Entry<T>)
    requires Sound(c, history)
    ensures Sound(c, history + [x])
  {
  }

  lemma PollCatchesUp<T>(c: Client<T>, history: seq<Entry<T>>)
    requires Numbered(history) && -1 <= c.lastId < |history| && c.received == history[..c.lastId + 1]
    requires |history| - (c.lastId + 1) <= MAX_LOG_MESSAGES
    ensures Polled(c, history) == Client(|history| - 1, history)
  {
    PollGets(c, history);
    var from := c.lastId + 1;
    assert NewerThan(Retained(history), c.lastId) == history[from..];
    if from < |history| {
      assert history[from..][|history| - from - 1] == history[|history| - 1];
      assert history[..from] + history[from..] == history;
    } else {
      assert history[..from] == history;
    }
  }

  /** Whatever is added between polls, the client sees entries in order and none twice. */
  lemma {:induction false} PollingIsSound<T>(c: Client<T>, history: seq<Entry<T>>, run: seq<Event<T>>)
    requires Numbered(history) && Sound(c, history)
    ensures Numbered(HistoryAfter(history, run))
    ensures Sound(ClientAfter(c, history, run), HistoryAfter(history, run))
    decreases |run|
  {
    if run != [] {
      match run[0]
      case Add(x) =>
        AddKeepsSound(c, history, Entry(|history|, x));
        PollingIsSound(c, history + [Entry(|history|, x)], run[1..]);
      case Poll =>
        PollKeepsSound(c, history);
        PollingIsSound(Polled(c, history), history, run[1..]);
    }
  }

  /** No stretch of additions without a poll is longer than the ring; `gap` counts the running one. */
  predicate PollsKeepUp<T>(gap: nat, run: seq<Event<T>>)
    decreases |run|
  {
    run == [] ||
    match run[0]
    case Add(_) => gap + 1 <= 20000 && PollsKeepUp(gap + 1, run[1..])
    case Poll => PollsKeepUp(0, run[1..])
  }

  /** A client that keeps up has received, after every run, exactly the history up to its last poll. */
  lemma {:induction false} PollingIsComplete<T>(c: Client<T>, history: seq<Entry<T>>, run: seq<Event<T>>)
    requires Numbered(history) && -1 <= c.lastId < |history| && c.received == history[..c.lastId + 1]
    requires PollsKeepUp(|history| - (c.lastId + 1), run) && |history| - (c.lastId + 1) <= 20000
    ensures var c', h' := ClientAfter(c, history, run), HistoryAfter(history, run);
            -1 <= c'.lastId < |h'| && c'.received == h'[..c'.lastId + 1]
    ensures run != [] && run[|run| - 1].Poll? ==>
              ClientAfter(c, history, run).received == HistoryAfter(history, run)
    decreases |run|
  {
    if run != [] {
      match run[0]
      case Add(x) =>
        var grown := history + [Entry(|history|, x)];
        assert grown[..c.lastId + 1] == history[..c.lastId + 1];
        PollingIsComplete(c, grown, run[1..]);
      case Poll =>
        PollCatchesUp(c, history);
        PollingIsComplete(Client(|history| - 1, history), history, run[1..]);
    }
  }
}
