/** Per-client state of the query server (src/server.cpp): the per-IP rate
    limiter consulted before a connection is served, the per-conversation
    message histories with their idle sweep, and the choice of citations
    returned with an answer. Clock readings are parameters, in nanoseconds
    since the epoch as `std::chrono::system_clock` counts them. */
module Sessions {
  import opened Common
  import VectorIndex

  const NANOS_PER_SECOND: nat := 1_000_000_000
  const NANOS_PER_HOUR: nat := 3_600_000_000_000
  /** `RATE_LIMIT_WINDOW_SEC` */
  const RATE_LIMIT_WINDOW_SEC: nat := 60
  /** `MAX_REQUESTS_PER_WINDOW` */
  const MAX_REQUESTS_PER_WINDOW: nat := 60
  /** Ten exchanges of a question and an answer. */
  const MAX_HISTORY: nat := 20
  /** `MAX_CONTEXT_CHUNKS` (src/config.h:11): results looked at per answer. */
  const MAX_CONTEXT_CHUNKS: nat := 3
  /** Characters of a document shown in a citation. */
  const SNIPPET_LENGTH: nat := 200

  // ---------------------------------------------------------------------
  // Durations

  /** `std::chrono::duration_cast` to a coarser unit: the quotient truncated
      toward zero, so a negative duration (a clock that went back) rounds up. */
  function WholeUnits(d: int, unit: nat): (q: int)
    requires unit > 0
    ensures d >= 0 ==> 0 <= q && q * unit <= d < q * unit + unit
    ensures d < 0 ==> q <= 0 && q * unit - unit < d <= q * unit
  {
    if d >= 0 then d / unit else -((-d) / unit)
  }

  /** More than `k` whole units have passed exactly when at least `k + 1`
      full units have. */
  lemma {:induction false} MoreThanWholeUnits(d: int, unit: nat, k: nat)
    requires unit > 0
    ensures WholeUnits(d, unit) > k <==> d >= (k + 1) * unit
  {
    var q := WholeUnits(d, unit);
    if q > k {
      assert q * unit >= (k + 1) * unit;
    }
  }

  // ---------------------------------------------------------------------
  // Rate limiting (src/server.cpp:153-183)

  /** A timestamp the limiter forgets at `now`: more than 60 whole seconds
      old. */
  predicate Stale(ts: int, now: int) {
    WholeUnits(now - ts, NANOS_PER_SECOND) > RATE_LIMIT_WINDOW_SEC as int
  }

  /** A timestamp is stale exactly when it is at least 61 seconds old. */
  lemma {:induction false} StaleIff(ts: int, now: int)
    ensures Stale(ts, now) <==> now - ts >= 61 * NANOS_PER_SECOND
  {
    MoreThanWholeUnits(now - ts, NANOS_PER_SECOND, RATE_LIMIT_WINDOW_SEC);
  }

  /** The timestamps `std::remove_if` keeps, in their order. */
  function Recent(ts: seq<int>, now: int): (r: seq<int>)
    ensures |r| <= |ts|
    decreases |ts|
  {
    if ts == [] then []
    else
      Recent(ts[..|ts| - 1], now) + (if Stale(ts[|ts| - 1], now) then [] else [ts[|ts| - 1]])
  }

  /** `Recent` keeps exactly the timestamps that are not stale. */
  lemma {:induction false} RecentMembers(ts: seq<int>, now: int, x: int)
    ensures x in Recent(ts, now) <==> x in ts && !Stale(x, now)
    decreases |ts|
  {
    if ts != [] {
      RecentMembers(ts[..|ts| - 1], now, x);
      assert ts == ts[..|ts| - 1] + [ts[|ts| - 1]];
    }
  }

  /** Filtering keeps order: the kept timestamps of two runs are the kept
      timestamps of each, one after the other. */
  lemma {:induction false} RecentAppend(a: seq<int>, b: seq<int>, now: int)
    ensures Recent(a + b, now) == Recent(a, now) + Recent(b, now)
    decreases |b|
  {
    if b != [] {
      var b' := b[..|b| - 1];
      assert (a + b)[..|a + b| - 1] == a + b';
      RecentAppend(a, b', now);
    } else {
      assert a + b == a;
    }
  }

  /** The timestamps recorded for `ip`, none before its first connection. */
  function Timestamps(connections: map<string, seq<int>>, ip: string): seq<int> {
    if ip in connections then connections[ip] else []
  }

  /** The limiter's decision and the list it leaves for `ip`: it rejects
      when 60 recent timestamps remain and otherwise records `now`. */
  function Admit(ts: seq<int>, now: int): (r: (bool, seq<int>))
    ensures r.0 <==> |Recent(ts, now)| < MAX_REQUESTS_PER_WINDOW
    ensures r.1 == Recent(ts, now) + (if r.0 then [now] else [])
  {
    var kept := Recent(ts, now);
    if |kept| >= MAX_REQUESTS_PER_WINDOW then (false, kept) else (true, kept + [now])
  }

  /** A list of at most 60 stays at most 60, and a request is admitted
      whenever fewer than 60 of the earlier ones are recent. */
  lemma {:induction false} AdmitBounded(ts: seq<int>, now: int)
    requires |ts| <= MAX_REQUESTS_PER_WINDOW
    ensures |Admit(ts, now).1| <= MAX_REQUESTS_PER_WINDOW
    ensures |ts| < MAX_REQUESTS_PER_WINDOW ==> Admit(ts, now).0
  {
  }

  /** A full list of 60 timestamps none of which is stale rejects: the 61st
      request inside one window is refused. */
  lemma {:induction false} AdmitRejectsFullWindow(ts: seq<int>, now: int)
    requires |ts| == MAX_REQUESTS_PER_WINDOW
    requires forall i :: 0 <= i < |ts| ==> !Stale(ts[i], now)
    ensures !Admit(ts, now).0
    ensures Admit(ts, now).1 == ts
  {
    RecentAllKept(ts, now);
  }

  lemma {:induction false} RecentAllKept(ts: seq<int>, now: int)
    requires forall i :: 0 <= i < |ts| ==> !Stale(ts[i], now)
    ensures Recent(ts, now) == ts
    decreases |ts|
  {
    if ts != [] {
      RecentAllKept(ts[..|ts| - 1], now);
      assert ts == ts[..|ts| - 1] + [ts[|ts| - 1]];
    }
  }

  /** `ConnectionTracker`: a list of connection times per client address. */
  class ConnectionTracker {
    var connections: map<string, seq<int>>

    /** No address holds more than 60 timestamps. */
    ghost predicate Valid()
      reads this
    {
      forall ip :: ip in connections ==> |connections[ip]| <= MAX_REQUESTS_PER_WINDOW
    }

    constructor()
      ensures connections == map[] && Valid()
    {
      connections := map[];
    }

    /** `should_allow_connection(ip)` at time `now`. `connections[ip]`
        creates the entry, so an address is never removed, even when
        rejected; the other addresses are untouched. */
    method ShouldAllowConnection(ip: string, now: int) returns (allowed: bool)
      requires Valid()
      modifies this
      ensures Valid()
      ensures ip in connections
      ensures (allowed, connections[ip]) == Admit(Timestamps(old(connections), ip), now)
      ensures connections == old(connections)[ip := connections[ip]]
    {
      var timestamps := Timestamps(connections, ip);
      var kept: seq<int> := [];
      var i := 0;
      while i < |timestamps|
        invariant i <= |timestamps|
        invariant kept == Recent(timestamps[..i], now)
      {
        assert timestamps[..i + 1][..i] == timestamps[..i];
        if !Stale(timestamps[i], now) {
          kept := kept + [timestamps[i]];
        }
        i := i + 1;
      }
      assert timestamps[..i] == timestamps;
      if |kept| >= MAX_REQUESTS_PER_WINDOW {
        connections := connections[ip := kept];
        return false;
      }
      connections := connections[ip := kept + [now]];
      return true;
    }
  }

  // ---------------------------------------------------------------------
  // Conversations (src/server.cpp:144-150, 298-313, 337-348, 397-411, 445-457)

  datatype ChatMessage = ChatMessage(role: string, content: string)

  /** A conversation's messages, oldest first, and the time of its last
      answer. */
  datatype Conversation = Conversation(messages: seq<ChatMessage>, lastActivity: int)

  /** What `conversations[id]` creates: no messages, and a default
      `time_point`, the clock's epoch. */
  const FRESH: Conversation := Conversation([], 0)

  function Current(conversations: map<string, Conversation>, id: string): Conversation {
    if id in conversations then conversations[id] else FRESH
  }

  /** Appends the question and the answer and, when that makes more than 20
      messages, erases the two oldest. */
  function Appended(history: seq<ChatMessage>, query: string, answer: string): (r: seq<ChatMessage>)
    ensures |r| == (if |history| + 2 > MAX_HISTORY then |history| else |history| + 2)
    ensures |history| <= MAX_HISTORY ==> |r| <= MAX_HISTORY
    ensures |r| >= 2 && r[|r| - 2..] == [ChatMessage("User", query), ChatMessage("Assistant", answer)]
    ensures r == (history + [ChatMessage("User", query), ChatMessage("Assistant", answer)])[|history| + 2 - |r|..]
  {
    var grown := history + [ChatMessage("User", query), ChatMessage("Assistant", answer)];
    if |grown| > MAX_HISTORY then grown[2..] else grown
  }

  /** Sweeping at `now` erases a conversation when more than one whole hour
      has passed since its last activity. */
  predicate Expired(c: Conversation, now: int) {
    WholeUnits(now - c.lastActivity, NANOS_PER_HOUR) > 1
  }

  /** Because the age is truncated to whole hours first, a conversation
      survives the sweep until it has been idle for two full hours. */
  lemma {:induction false} ExpiredIff(c: Conversation, now: int)
    ensures Expired(c, now) <==> now - c.lastActivity >= 2 * NANOS_PER_HOUR
  {
    MoreThanWholeUnits(now - c.lastActivity, NANOS_PER_HOUR, 1);
  }

  /** The conversations a sweep at `now` keeps. */
  function Swept(conversations: map<string, Conversation>, now: int): (r: map<string, Conversation>)
    ensures forall id :: id in r <==> id in conversations && !Expired(conversations[id], now)
    ensures forall id :: id in r ==> r[id] == conversations[id]
  {
    map id | id in conversations && !Expired(conversations[id], now) :: conversations[id]
  }

  /** The entry `conversations[id]` creates for an unknown conversation
      carries the epoch, so the sweep right after it removes it again once
      the clock is two hours past the epoch. */
  lemma {:induction false} FreshEntrySwept(conversations: map<string, Conversation>, id: string, now: int)
    requires id !in conversations
    requires now >= 2 * NANOS_PER_HOUR
    ensures Swept(conversations[id := FRESH], now) == Swept(conversations, now)
  {
    ExpiredIff(FRESH, now);
    var m := conversations[id := FRESH];
    assert Swept(m, now).Keys == Swept(conversations, now).Keys;
  }

  /** Every history in the store has at most 20 messages. */
  predicate Bounded(conversations: map<string, Conversation>) {
    forall id :: id in conversations ==> |conversations[id].messages| <= MAX_HISTORY
  }

  /** Recording an exchange and sweeping both keep every history at 20
      messages or fewer. */
  lemma {:induction false} BoundedPreserved(conversations: map<string, Conversation>, id: string, query: string, answer: string, now: int)
    requires Bounded(conversations)
    ensures Bounded(conversations[id := Conversation(Appended(Current(conversations, id).messages, query, answer), now)])
    ensures Bounded(Swept(conversations, now))
  {
    var history := Current(conversations, id).messages;
    assert |history| <= MAX_HISTORY;
    var appended := Appended(history, query, answer);
    var m := conversations[id := Conversation(appended, now)];
    forall k | k in m
      ensures |m[k].messages| <= MAX_HISTORY
    {
      if k != id {
        assert m[k] == conversations[k];
      }
    }
    var w := Swept(conversations, now);
    forall k | k in w
      ensures |w[k].messages| <= MAX_HISTORY
    {
      assert w[k] == conversations[k];
    }
  }

  /** The global `conversations` map. */
  class ConversationStore {
    var conversations: map<string, Conversation>

    constructor()
      ensures conversations == map[]
    {
      conversations := map[];
    }

    /** `auto& conv = conversations[id]; history = conv.messages;`: reads
        the history, creating an empty entry stamped with the epoch when
        there is none. */
    method History(id: string) returns (history: seq<ChatMessage>)
      modifies this
      ensures history == Current(old(conversations), id).messages
      ensures conversations == old(conversations)[id := Current(old(conversations), id)]
    {
      if id !in conversations {
        conversations := conversations[id := FRESH];
      }
      history := conversations[id].messages;
    }

    /** The clean-up loop: walks the map and erases each expired
        conversation. */
    method Sweep(now: int)
      modifies this
      ensures conversations == Swept(old(conversations), now)
    {
      var remaining := conversations.Keys;
      while remaining != {}
        invariant remaining <= old(conversations).Keys
        invariant forall id :: id in conversations <==>
          id in old(conversations) && (id in remaining || !Expired(old(conversations)[id], now))
        invariant forall id :: id in conversations ==> conversations[id] == old(conversations)[id]
        decreases remaining
      {
        var id :| id in remaining;
        if Expired(conversations[id], now) {
          conversations := conversations - {id};
        }
        remaining := remaining - {id};
      }
    }

    /** The update after an answer: the exchange is appended, the activity
        time set to `now`, and the history cut back to 20 messages. */
    method Record(id: string, query: string, answer: string, now: int)
      modifies this
      ensures conversations == old(conversations)[id := Conversation(Appended(Current(old(conversations), id).messages, query, answer), now)]
    {
      var conv := Current(conversations, id);
      var messages := conv.messages + [ChatMessage("User", query)];
      messages := messages + [ChatMessage("Assistant", answer)];
      assert messages == conv.messages + [ChatMessage("User", query), ChatMessage("Assistant", answer)];
      if |messages| > MAX_HISTORY {
        messages := messages[2..];
      }
      conversations := conversations[id := Conversation(messages, now)];
    }
  }

  // ---------------------------------------------------------------------
  // Citations (src/server.cpp:365-394)

  /** A citation: the file name and the start of the chunk's text. The
      similarity score, a float, is not modelled. */
  datatype Citation = Citation(filename: string, snippet: string)

  /** `text.substr(0, 200) + "..."`. */
  function Snippet(text: string): (s: string)
    ensures |s| == Min(|text|, SNIPPET_LENGTH) + 3
    ensures s[..|s| - 3] == text[..Min(|text|, SNIPPET_LENGTH)]
  {
    (if |text| <= SNIPPET_LENGTH then text else text[..SNIPPET_LENGTH]) + "..."
  }

  /** The citations built from `results`, in order: each result whose row
      indexes `documents` adds its document unless that file was already
      cited. */
  function Citations(results: seq<VectorIndex.Scored>, documents: seq<Document>): (r: seq<Citation>)
    ensures |r| <= |results|
    decreases |results|
  {
    if results == [] then []
    else
      var earlier := Citations(results[..|results| - 1], documents);
      var row := results[|results| - 1].row;
      if 0 <= row < |documents| && !Cited(earlier, documents[row].filename) then
        earlier + [Citation(documents[row].filename, Snippet(documents[row].text))]
      else earlier
  }

  predicate Cited(cs: seq<Citation>, filename: string) {
    exists i :: 0 <= i < |cs| && cs[i].filename == filename
  }

  /** No file is cited twice. */
  lemma {:induction false} CitationsDistinct(results: seq<VectorIndex.Scored>, documents: seq<Document>)
    ensures forall i, j :: 0 <= i < j < |Citations(results, documents)| ==>
      Citations(results, documents)[i].filename != Citations(results, documents)[j].filename
    decreases |results|
  {
    if results != [] {
      CitationsDistinct(results[..|results| - 1], documents);
    }
  }

  /** Every citation comes from a result with an in-range row, and every
      in-range result has its file cited: the first time it is seen. */
  lemma {:induction false} CitationsComplete(results: seq<VectorIndex.Scored>, documents: seq<Document>)
    ensures forall c :: c in Citations(results, documents) ==>
      exists k :: (0 <= k < |results| && 0 <= results[k].row < |documents|
        && c == Citation(documents[results[k].row].filename, Snippet(documents[results[k].row].text)))
    ensures forall k :: 0 <= k < |results| && 0 <= results[k].row < |documents| ==>
      Cited(Citations(results, documents), documents[results[k].row].filename)
    decreases |results|
  {
    if results != [] {
      var p := results[..|results| - 1];
      CitationsComplete(p, documents);
      var earlier := Citations(p, documents);
      var r := Citations(results, documents);
      assert forall k :: 0 <= k < |p| ==> p[k] == results[k];
      forall c | c in r
        ensures exists k :: (0 <= k < |results| && 0 <= results[k].row < |documents|
          && c == Citation(documents[results[k].row].filename, Snippet(documents[results[k].row].text)))
      {
        if c in earlier {
          var k :| 0 <= k < |p| && 0 <= p[k].row < |documents|
            && c == Citation(documents[p[k].row].filename, Snippet(documents[p[k].row].text));
          assert results[k] == p[k];
        } else {
          assert c == r[|r| - 1];
          assert results[|results| - 1].row == results[|p|].row;
        }
      }
      forall k | 0 <= k < |results| && 0 <= results[k].row < |documents|
        ensures Cited(r, documents[results[k].row].filename)
      {
        if k < |p| {
          assert results[k] == p[k];
          var i :| 0 <= i < |earlier| && earlier[i].filename == documents[p[k].row].filename;
          assert r[i] == earlier[i];
        } else {
          if !Cited(earlier, documents[results[k].row].filename) {
            assert r[|r| - 1].filename == documents[results[k].row].filename;
          }
          else {
            var i :| 0 <= i < |earlier| && earlier[i].filename == documents[results[k].row].filename;
            assert r[i] == earlier[i];
          }
        }
      }
    }
  }

  /** The citations returned with an answer: none when nothing is indexed
      or the client asked for no context; otherwise those of the first
      three search results. At most three files are cited. */
  method SelectMatches(results: seq<VectorIndex.Scored>, documents: seq<Document>, useContext: bool)
    returns (matches: seq<Citation>)
    ensures documents == [] || !useContext ==> matches == []
    ensures documents != [] && useContext ==>
      matches == Citations(results[..Min(MAX_CONTEXT_CHUNKS, |results|)], documents)
    ensures |matches| <= MAX_CONTEXT_CHUNKS
  {
    matches := [];
    if documents == [] || !useContext {
      return;
    }
    var maxResults := Min(MAX_CONTEXT_CHUNKS, |results|);
    var i := 0;
    while i < maxResults
      invariant i <= maxResults
      invariant matches == Citations(results[..i], documents)
    {
      assert results[..i + 1][..i] == results[..i];
      var row := results[i].row;
      if 0 <= row < |documents| {
        if !Cited(matches, documents[row].filename) {
          matches := matches + [Citation(documents[row].filename, Snippet(documents[row].text))];
        }
      }
      i := i + 1;
    }
  }
}
