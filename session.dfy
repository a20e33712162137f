/**
 * The session part of `MCQuery`: the sequence id, the handshake retry
 * counter and the challenge token, over a transport that plays back a
 * finite script of receive outcomes.
 *
 * `HandshakeRun` and `StatRun` are the reference semantics: they follow the
 * client's self-recursion on values. The class `MCQuery` below carries the
 * same state in fields and its methods are proved to behave as those
 * functions say.
 */
module Session {
  import opened Wrappers
  import opened Bytes
  import opened Packet
  import opened Record
  import BasicStat
  import FullStat

  /** One outcome of `recvfrom` in the script: the socket timed out, or a datagram arrived. */
  datatype Reply = Timeout | Datagram(data: seq<byte>)

  /** Why a session call raised. */
  datatype SessionError =
    | IdOutOfRange              // `struct.pack('>l', self.id)` in `write_packet` raises
    | HandshakeLimit            // the handshake failed `max_retries` times in a row
    | BadChallenge              // the handshake reply does not parse as an int32
    | Malformed(reason: DecodeError) // the stat reply does not decode
    | ScriptEnded               // the script has no outcome left for a read

  /** What a read yields: nothing left in the script, a raised exception, or a parsed header. */
  datatype Read = Ended | Failed | Got(header: Header)

  /** The two stat requests. */
  datatype StatKind = Basic | Full

  /** The session's fields, and the transport as the script still to be read and the packets sent so far. */
  datatype Conn = Conn(id: int, retries: int, maxRetries: int, challenge: seq<byte>,
                       inbox: seq<Reply>, sent: seq<seq<byte>>)

  /** The state after a call and what the call returned or raised. */
  datatype Run<T> = Run(after: Conn, outcome: Result<T, SessionError>)

  /** `max_retries` when the caller gives none. */
  const DefaultMaxRetries: int := 3

  /** `recvfrom(2048)` keeps only the first 2048 bytes of a datagram. */
  function Truncate(data: seq<byte>): (r: seq<byte>)
    ensures |r| == if |data| <= RecvBufSize then |data| else RecvBufSize
    ensures r <= data
  {
    if |data| <= RecvBufSize then data else data[..RecvBufSize]
  }

  /** `read_packet` on one outcome: a timeout raises, and so does a datagram of fewer than 5 bytes. */
  function ReadReply(reply: Reply): (r: Option<Header>)
    ensures reply.Timeout? ==> r.None?
    ensures reply.Datagram? ==> (r.Some? <==> |reply.data| >= 5)
    ensures r.Some? ==> InInt32(r.value.id) && [r.value.kind] + PackInt32BE(r.value.id) + r.value.payload == Truncate(reply.data)
  {
    match reply
    case Timeout => None
    case Datagram(data) => ParseHeader(Truncate(data))
  }

  /** The next read against the script. */
  function NextRead(inbox: seq<Reply>): (r: Read)
    ensures r.Ended? <==> inbox == []
    ensures inbox != [] ==> (r.Failed? <==> ReadReply(inbox[0]).None?)
    ensures r.Got? ==> ReadReply(inbox[0]) == Some(r.header)
  {
    if inbox == [] then Ended
    else match ReadReply(inbox[0])
      case None => Failed
      case Some(h) => Got(h)
  }

  /** A request as `write_packet` frames it: the magic bytes, a type byte, a 4-byte id, the payload. */
  ghost predicate Framed(packet: seq<byte>) {
    |packet| >= 7 && packet[..2] == Magic
  }

  /** `c.inbox` ends with `later`: reading only ever consumes the script from the front. */
  ghost predicate Consumed(c: Conn, later: Conn) {
    |later.inbox| <= |c.inbox| && later.inbox == c.inbox[|c.inbox| - |later.inbox|..]
  }

  /** `c.sent` is a prefix of `later.sent`, and everything added is a framed request. */
  ghost predicate SentMore(c: Conn, later: Conn) {
    c.sent <= later.sent && forall i :: |c.sent| <= i < |later.sent| ==> Framed(later.sent[i])
  }

  /** Reading and sending only ever move forward, so two steps compose. */
  lemma Chain(a: Conn, b: Conn, d: Conn)
    requires Consumed(a, b) && SentMore(a, b) && Consumed(b, d) && SentMore(b, d)
    ensures Consumed(a, d) && SentMore(a, d)
  {
    assert d.inbox == a.inbox[|a.inbox| - |d.inbox|..] by {
      assert b.inbox[|b.inbox| - |d.inbox|..] == a.inbox[|a.inbox| - |d.inbox|..];
    }
  }

  /** One request sent and, if `read`, one outcome read. */
  lemma Step(c: Conn, packet: seq<byte>, read: bool)
    requires Framed(packet) && (read ==> c.inbox != [])
    ensures var d := c.(sent := c.sent + [packet], inbox := if read then c.inbox[1..] else c.inbox);
      Consumed(c, d) && SentMore(c, d)
  {
  }

  /** The request a handshake sends while the id is `id`. */
  function HandshakeRequest(id: int): (r: seq<byte>)
    requires InInt32(id)
    ensures Framed(r) && |r| == 7 && r[2] == HandshakeType && UnpackInt32BE(r[3..7]) == id
  {
    EncodeRequest(HandshakeType, id, []).value
  }

  /** The requests of `n` handshake attempts in a row, the first with id `from`. */
  function HandshakeRequests(from: int, n: nat): (rs: seq<seq<byte>>)
    requires n > 0 ==> InInt32(from) && InInt32(from + n - 1)
    ensures |rs| == n
    decreases n
  {
    if n == 0 then [] else [HandshakeRequest(from)] + HandshakeRequests(from + 1, n - 1)
  }

  /** A log followed by one attempt's request and then `n` more is the log followed by `n + 1` attempts. */
  lemma RequestsCons(sent: seq<seq<byte>>, from: int, n: nat)
    requires InInt32(from) && InInt32(from + n)
    ensures (sent + [HandshakeRequest(from)]) + HandshakeRequests(from + 1, n) == sent + HandshakeRequests(from, n + 1)
  {
  }

  /** The state after a handshake attempt whose read fails: next id, one request sent, one outcome read, one more retry. */
  function FailedAttempt(c: Conn): Conn
    requires InInt32(c.id + 1) && c.inbox != []
  {
    c.(id := c.id + 1, sent := c.sent + [HandshakeRequest(c.id + 1)], inbox := c.inbox[1..], retries := c.retries + 1)
  }

  /**
   * `handshake`: bump the id, send a type-9 request with an empty payload and
   * read. A failed read counts a retry and raises once the count equals
   * `max_retries`, else tries again; a reply resets the count and its payload
   * becomes the challenge.
   */
  function HandshakeRun(c: Conn): (r: Run<()>)
    decreases |c.inbox|
    ensures r.after.maxRetries == c.maxRetries
    ensures Consumed(c, r.after) && SentMore(c, r.after)
  {
    var id := c.id + 1;
    if !InInt32(id) then Run(c.(id := id), Err(IdOutOfRange))
    else
      var packet := HandshakeRequest(id);
      Step(c, packet, c.inbox != []);
      match NextRead(c.inbox)
      case Ended => Run(c.(id := id, sent := c.sent + [packet]), Err(ScriptEnded))
      case Failed =>
        var c2 := FailedAttempt(c);
        if c2.retries == c2.maxRetries then Run(c2, Err(HandshakeLimit))
        else Chain(c, c2, HandshakeRun(c2).after); HandshakeRun(c2)
      case Got(h) =>
        var c2 := c.(id := id, sent := c.sent + [packet], inbox := c.inbox[1..], retries := 0);
        match ChallengeToken(h.payload)
        case None => Run(c2, Err(BadChallenge))
        case Some(token) => Run(c2.(challenge := token), Ok(()))
  }

  /**
   * Every handshake moves the id forward; success leaves `retries` at 0 and a
   * 4-byte challenge; a failure keeps the old challenge, and giving up leaves
   * `retries` at `max_retries`.
   */
  lemma {:induction false} HandshakeOutcome(c: Conn)
    decreases |c.inbox|
    ensures var r := HandshakeRun(c);
      && r.after.id > c.id
      && (r.outcome.Ok? ==> r.after.retries == 0 && |r.after.challenge| == 4)
      && (r.outcome.Err? ==> r.after.challenge == c.challenge && !r.outcome.error.Malformed?)
      && (r.outcome == Err(HandshakeLimit) ==> r.after.retries == r.after.maxRetries)
  {
    var id := c.id + 1;
    if InInt32(id) && c.inbox != [] && ReadReply(c.inbox[0]).None? && c.retries + 1 != c.maxRetries {
      HandshakeRetry(c);
      HandshakeOutcome(FailedAttempt(c));
    }
  }

  /** The payload of a stat request: the challenge, padded with four zero bytes for the full stat. */
  function StatPayload(kind: StatKind, challenge: seq<byte>): (p: seq<byte>)
    ensures |p| >= |challenge| && p[..|challenge|] == challenge
    ensures kind.Basic? ==> p == challenge
    ensures kind.Full? ==> |p| == |challenge| + 4 && p[|challenge|..] == [0, 0, 0, 0]
  {
    match kind
    case Basic => challenge
    case Full => challenge + [0, 0, 0, 0]
  }

  /** Decoding a stat reply's payload; a decoding error escapes the call. */
  function DecodeStat(kind: StatKind, payload: seq<byte>): (r: Result<OrderedDict, SessionError>)
    ensures kind.Basic? ==> (r.Ok? <==> BasicStat.ParseBasic(payload).Ok?)
    ensures kind.Full? ==> (r.Ok? <==> FullStat.ParseFull(payload).Ok?)
    ensures r.Ok? ==> Keys(r.value) == if kind.Basic? then BasicPrintOrder else FullPrintOrder
    ensures r.Err? ==> r.error.Malformed?
    ensures kind.Basic? && r.Ok? ==> r.value == BasicStat.BasicRecord(BasicStat.ParseBasic(payload).value)
    ensures kind.Basic? && r.Err? ==> r.error == Malformed(BasicStat.ParseBasic(payload).error)
    ensures kind.Full? && r.Ok? ==> r.value == FullStat.FullRecord(FullStat.ParseFull(payload).value)
    ensures kind.Full? && r.Err? ==> r.error == Malformed(FullStat.ParseFull(payload).error)
  {
    var decoded := match kind
      case Basic => BasicStat.DecodeBasic(payload)
      case Full => FullStat.DecodeFull(payload);
    match decoded
    case Ok(d) => Ok(d)
    case Err(e) => Err(Malformed(e))
  }

  /**
   * The exchange of `basic_stat` / `full_stat`: send a type-0 request with the
   * current id and challenge, and read; a failed read runs `handshake` (whose
   * error escapes) and then the whole call again. The outcome is the payload
   * of the reply that was read.
   */
  function StatExchange(kind: StatKind, c: Conn): (r: Run<seq<byte>>)
    decreases |c.inbox|
    ensures r.after.maxRetries == c.maxRetries
    ensures Consumed(c, r.after) && SentMore(c, r.after)
    ensures r.after.id >= c.id
    ensures r.outcome.Err? ==> !r.outcome.error.Malformed?
  {
    match EncodeRequest(StatType, c.id, StatPayload(kind, c.challenge))
    case None => Run(c, Err(IdOutOfRange))
    case Some(packet) =>
      var c1 := c.(sent := c.sent + [packet]);
      match NextRead(c1.inbox)
      case Ended => Step(c, packet, false); Run(c1, Err(ScriptEnded))
      case Failed =>
        var c2 := c1.(inbox := c1.inbox[1..]);
        var h := HandshakeRun(c2);
        Step(c, packet, true);
        Chain(c, c2, h.after);
        HandshakeOutcome(c2);
        if h.outcome.Err? then Run(h.after, Err(h.outcome.error))
        else Chain(c, h.after, StatExchange(kind, h.after).after); StatExchange(kind, h.after)
      case Got(header) => Step(c, packet, true); Run(c1.(inbox := c1.inbox[1..]), Ok(header.payload))
  }

  /**
   * `basic_stat` / `full_stat`: the exchange, then the decoding of the reply
   * that ended it (the recursive call returns the decoded record of the
   * call that succeeded).
   */
  function StatRun(kind: StatKind, c: Conn): (r: Run<OrderedDict>)
    ensures r.after == StatExchange(kind, c).after
    ensures r.outcome.Ok? ==> Keys(r.outcome.value) == if kind.Basic? then BasicPrintOrder else FullPrintOrder
    ensures r.outcome.Err? && r.outcome.error.Malformed? ==> StatExchange(kind, c).outcome.Ok?
    ensures StatExchange(kind, c).outcome.Ok? ==> r.outcome == DecodeStat(kind, StatExchange(kind, c).outcome.value)
    ensures StatExchange(kind, c).outcome.Err? ==> r.outcome == Err(StatExchange(kind, c).outcome.error)
  {
    var e := StatExchange(kind, c);
    match e.outcome
    case Ok(payload) => Run(e.after, DecodeStat(kind, payload))
    case Err(error) => Run(e.after, Err(error))
  }

  /**
   * A session that holds a 4-byte challenge keeps one through a handshake and
   * through a stat call, so every stat request it sends carries a 4-byte token.
   */
  lemma {:induction false} HandshakeKeepsToken(c: Conn)
    requires |c.challenge| == 4
    ensures |HandshakeRun(c).after.challenge| == 4
  {
    HandshakeOutcome(c);
  }

  lemma {:induction false} StatKeepsToken(kind: StatKind, c: Conn)
    requires |c.challenge| == 4
    decreases |c.inbox|
    ensures |StatExchange(kind, c).after.challenge| == 4
    ensures |StatRun(kind, c).after.challenge| == 4
  {
    if InInt32(c.id) && c.inbox != [] && ReadReply(c.inbox[0]).None? {
      var c2 := StatFailedRead(kind, c);
      HandshakeOutcome(c2);
      if HandshakeRun(c2).outcome.Ok? {
        StatRetry(kind, c);
        StatKeepsToken(kind, HandshakeRun(c2).after);
      } else {
        StatHandshakeFails(kind, c);
      }
    }
  }

  /** A failed read below the limit: the handshake goes on as a fresh attempt from the updated state. */
  lemma HandshakeRetry(c: Conn)
    requires InInt32(c.id + 1) && c.inbox != [] && ReadReply(c.inbox[0]).None?
    requires c.retries + 1 != c.maxRetries
    ensures HandshakeRun(c) == HandshakeRun(FailedAttempt(c))
  {
  }

  /** A retry adds its request in front of the requests of the attempts after it. */
  lemma SentAfterRetry(c: Conn, n: nat)
    requires InInt32(c.id + 1) && c.inbox != [] && ReadReply(c.inbox[0]).None?
    requires c.retries + 1 != c.maxRetries && InInt32(c.id + n + 1)
    requires HandshakeRun(FailedAttempt(c)).after.sent == FailedAttempt(c).sent + HandshakeRequests(c.id + 2, n)
    ensures HandshakeRun(c).after.sent == c.sent + HandshakeRequests(c.id + 1, n + 1)
  {
    HandshakeRetry(c);
    RequestsCons(c.sent, c.id + 1, n);
  }

  /** `SentAfterRetry` for an attempt that `AnsweredAfter` says fails. */
  lemma SentStep(c: Conn, k: nat, token: seq<byte>)
    requires k > 0 && AnsweredAfter(c, k, token)
    ensures AnsweredAfter(FailedAttempt(c), k - 1, token)
    ensures FailedAttempt(c).id + 1 == c.id + 2
    ensures HandshakeRun(FailedAttempt(c)).after.sent == FailedAttempt(c).sent + HandshakeRequests(c.id + 2, k) ==>
            HandshakeRun(c).after.sent == c.sent + HandshakeRequests(c.id + 1, k + 1)
  {
    AnsweredAfterStep(c, k, token);
    if HandshakeRun(FailedAttempt(c)).after.sent == FailedAttempt(c).sent + HandshakeRequests(c.id + 2, k) {
      SentAfterRetry(c, k);
    }
  }

  /** An id that no longer packs ends the handshake before anything is sent. */
  lemma HandshakeIdOverflow(c: Conn)
    requires !InInt32(c.id + 1)
    ensures HandshakeRun(c) == Run(c.(id := c.id + 1), Err(IdOutOfRange))
  {
  }

  /** A read with nothing left in the script ends the handshake. */
  lemma HandshakeEnded(c: Conn)
    requires InInt32(c.id + 1) && c.inbox == []
    ensures HandshakeRun(c) == Run(c.(id := c.id + 1, sent := c.sent + [HandshakeRequest(c.id + 1)]), Err(ScriptEnded))
  {
  }

  /** A failed read that brings `retries` to `max_retries` ends the handshake with the retry-limit error. */
  lemma HandshakeAtLimit(c: Conn)
    requires InInt32(c.id + 1) && c.inbox != [] && ReadReply(c.inbox[0]).None?
    requires c.retries + 1 == c.maxRetries
    ensures HandshakeRun(c) == Run(FailedAttempt(c), Err(HandshakeLimit))
  {
  }

  /** A reply whose payload is no token ends the handshake with `retries` reset. */
  lemma HandshakeBadToken(c: Conn)
    requires InInt32(c.id + 1) && c.inbox != []
    requires ReadReply(c.inbox[0]).Some? && ChallengeToken(ReadReply(c.inbox[0]).value.payload).None?
    ensures HandshakeRun(c) == Run(c.(id := c.id + 1, sent := c.sent + [HandshakeRequest(c.id + 1)],
                                      inbox := c.inbox[1..], retries := 0), Err(BadChallenge))
  {
  }

  /** A read that returns a valid token ends the handshake at once. */
  lemma HandshakeAnswered(c: Conn, token: seq<byte>)
    requires InInt32(c.id + 1) && c.inbox != []
    requires ReadReply(c.inbox[0]).Some? && ChallengeToken(ReadReply(c.inbox[0]).value.payload) == Some(token)
    ensures HandshakeRun(c) == Run(c.(id := c.id + 1, sent := c.sent + [HandshakeRequest(c.id + 1)],
                                      inbox := c.inbox[1..], retries := 0, challenge := token), Ok(()))
  {
  }

  /** `k` failed reads below the limit, then a read of a reply: the conditions of `HandshakeAfterFailures`. */
  ghost predicate AnsweredAfter(c: Conn, k: nat, token: seq<byte>) {
    && k < |c.inbox|
    && (forall i :: 0 <= i < k ==> ReadReply(c.inbox[i]).None?)
    && ReadReply(c.inbox[k]).Some? && ChallengeToken(ReadReply(c.inbox[k]).value.payload) == Some(token)
    && (c.retries + k < c.maxRetries || c.maxRetries <= c.retries)
    && InInt32(c.id + 1) && InInt32(c.id + k + 1)
  }

  /** Each failed attempt leaves the rest of the script answering one attempt sooner. */
  lemma AnsweredAfterStep(c: Conn, k: nat, token: seq<byte>)
    requires k > 0 && AnsweredAfter(c, k, token)
    ensures AnsweredAfter(FailedAttempt(c), k - 1, token)
    ensures HandshakeRun(c) == HandshakeRun(FailedAttempt(c))
  {
    assert ReadReply(c.inbox[0]).None?;
    HandshakeRetry(c);
  }

  /**
   * From `retries`, `k` failed reads below the limit and then a reply with a
   * valid token: the handshake succeeds after `k + 1` attempts, each with the
   * next id, and leaves `retries` at 0 and the token as the challenge.
   */
  lemma {:induction false} HandshakeAfterFailures(c: Conn, k: nat, token: seq<byte>)
    requires AnsweredAfter(c, k, token)
    ensures var r := HandshakeRun(c);
      && r.outcome == Ok(())
      && r.after.id == c.id + k + 1 && r.after.retries == 0 && r.after.challenge == token
      && r.after.inbox == c.inbox[k + 1..]
    decreases k
  {
    if k == 0 {
      HandshakeAnswered(c, token);
    } else {
      AnsweredAfterStep(c, k, token);
      HandshakeAfterFailures(FailedAttempt(c), k - 1, token);
      assert c.inbox[1..][k..] == c.inbox[k + 1..];
    }
  }

  /** Those `k + 1` attempts send one handshake request each, with consecutive ids. */
  lemma {:induction false} HandshakeAfterFailuresSent(c: Conn, k: nat, token: seq<byte>)
    requires AnsweredAfter(c, k, token)
    ensures HandshakeRun(c).after.sent == c.sent + HandshakeRequests(c.id + 1, k + 1)
    decreases k
  {
    if k == 0 {
      HandshakeAnswered(c, token);
      RequestsCons(c.sent, c.id + 1, 0);
    } else {
      SentStep(c, k, token);
      HandshakeAfterFailuresSent(FailedAttempt(c), k - 1, token);
    }
  }

  /**
   * From `retries` below the limit, a failed read on each remaining attempt:
   * the handshake raises after `max_retries - retries` attempts, with
   * `retries` equal to `max_retries`.
   */
  lemma {:induction false} HandshakeGivesUp(c: Conn)
    requires c.retries < c.maxRetries
    requires c.maxRetries - c.retries <= |c.inbox|
    requires forall i :: 0 <= i < c.maxRetries - c.retries ==> ReadReply(c.inbox[i]).None?
    requires InInt32(c.id + 1) && InInt32(c.id + c.maxRetries - c.retries)
    ensures var r := HandshakeRun(c);
      && r.outcome == Err(HandshakeLimit)
      && r.after.id == c.id + (c.maxRetries - c.retries) && r.after.retries == c.maxRetries
      && r.after.inbox == c.inbox[c.maxRetries - c.retries..]
      && r.after.challenge == c.challenge
    decreases c.maxRetries - c.retries
  {
    assert ReadReply(c.inbox[0]).None?;
    if c.retries + 1 < c.maxRetries {
      HandshakeRetry(c);
      var c2 := FailedAttempt(c);
      forall i | 0 <= i < c2.maxRetries - c2.retries ensures ReadReply(c2.inbox[i]).None? {
        assert c2.inbox[i] == c.inbox[i + 1];
      }
      HandshakeGivesUp(c2);
      assert c2.inbox[c2.maxRetries - c2.retries..] == c.inbox[c.maxRetries - c.retries..];
    } else {
      HandshakeAtLimit(c);
    }
  }

  /**
   * Once `retries` is at or above `max_retries` the `==` test never holds
   * again: the handshake keeps retrying while the script lasts and never
   * raises for the retry limit.
   */
  lemma {:induction false} NoLimitPastMax(c: Conn)
    requires c.retries >= c.maxRetries
    ensures HandshakeRun(c).outcome != Err(HandshakeLimit)
    decreases |c.inbox|
  {
    var id := c.id + 1;
    if InInt32(id) && c.inbox != [] && ReadReply(c.inbox[0]).None? {
      HandshakeRetry(c);
      NoLimitPastMax(FailedAttempt(c));
    }
  }

  /** After a handshake gives up, the next handshake on the same session cannot give up for the retry limit. */
  lemma LimitIsFinal(c: Conn)
    requires HandshakeRun(c).outcome == Err(HandshakeLimit)
    ensures HandshakeRun(HandshakeRun(c).after).outcome != Err(HandshakeLimit)
  {
    HandshakeOutcome(c);
    NoLimitPastMax(HandshakeRun(c).after);
  }

  /** The stat request sent while the id is `id` and the challenge is `challenge`. */
  function StatRequest(kind: StatKind, id: int, challenge: seq<byte>): seq<byte>
    requires InInt32(id)
  {
    EncodeRequest(StatType, id, StatPayload(kind, challenge)).value
  }

  /** The state in which a stat call whose read failed starts its handshake: its request logged, one outcome read. */
  function StatFailedRead(kind: StatKind, c: Conn): Conn
    requires InInt32(c.id) && c.inbox != []
  {
    c.(sent := c.sent + [StatRequest(kind, c.id, c.challenge)], inbox := c.inbox[1..])
  }

  /** A failed read followed by a successful handshake: the stat call starts over from the handshake's state. */
  lemma StatRetry(kind: StatKind, c: Conn)
    requires c.inbox != [] && ReadReply(c.inbox[0]).None? && InInt32(c.id)
    requires HandshakeRun(StatFailedRead(kind, c)).outcome.Ok?
    ensures StatExchange(kind, c) == StatExchange(kind, HandshakeRun(StatFailedRead(kind, c)).after)
  {
  }

  /** A stat call answered at once sends one request with the current id and challenge, reads one outcome and changes no session field. */
  lemma StatFirstTry(kind: StatKind, c: Conn)
    requires c.inbox != [] && ReadReply(c.inbox[0]).Some? && InInt32(c.id)
    ensures StatExchange(kind, c) == Run(c.(sent := c.sent + [StatRequest(kind, c.id, c.challenge)], inbox := c.inbox[1..]),
                                         Ok(ReadReply(c.inbox[0]).value.payload))
  {
  }

  /**
   * End to end: a stat call whose first read is a conforming server's reply
   * sends one request and returns the server's status, in print order.
   */
  lemma BasicStatAnswered(c: Conn, st: BasicStat.BasicStatus)
    requires InInt32(c.id) && BasicStat.Sendable(st) && IsLatin1(BasicStat.BasicReplyText(st))
    requires c.inbox != [] && ReadReply(c.inbox[0]).Some?
    requires ReadReply(c.inbox[0]).value.payload == Latin1Encode(BasicStat.BasicReplyText(st))
    ensures StatRun(Basic, c) == Run(c.(sent := c.sent + [StatRequest(Basic, c.id, c.challenge)], inbox := c.inbox[1..]),
                                     Ok(BasicStat.BasicRecord(st)))
  {
    StatFirstTry(Basic, c);
    BasicStat.BasicRoundTrip(st);
  }

  lemma FullStatAnswered(c: Conn, pad: seq<byte>, st: FullStat.FullStatus)
    requires InInt32(c.id) && |pad| == FullStat.PaddingLength
    requires FullStat.Sendable(st) && IsLatin1(FullStat.FullReplyText(st))
    requires c.inbox != [] && ReadReply(c.inbox[0]).Some?
    requires ReadReply(c.inbox[0]).value.payload == pad + Latin1Encode(FullStat.FullReplyText(st))
    ensures StatRun(Full, c) == Run(c.(sent := c.sent + [StatRequest(Full, c.id, c.challenge)], inbox := c.inbox[1..]),
                                    Ok(FullStat.FullRecord(st)))
  {
    StatFirstTry(Full, c);
    FullStat.FullRoundTrip(pad, st);
  }

  /**
   * A stat call whose first read fails re-handshakes and resends: with a
   * handshake answered at once, the second request carries the next id and
   * its fresh challenge, and the third outcome is decoded.
   */
  lemma StatRecovers(kind: StatKind, c: Conn, token: seq<byte>)
    requires |c.inbox| >= 3
    requires ReadReply(c.inbox[0]).None?
    requires ReadReply(c.inbox[1]).Some? && ChallengeToken(ReadReply(c.inbox[1]).value.payload) == Some(token)
    requires ReadReply(c.inbox[2]).Some?
    requires InInt32(c.id) && InInt32(c.id + 1)
    ensures StatExchange(kind, c) == Run(c.(id := c.id + 1, retries := 0, challenge := token, inbox := c.inbox[3..],
                                            sent := c.sent + [StatRequest(kind, c.id, c.challenge)] + [HandshakeRequest(c.id + 1)]
                                                           + [StatRequest(kind, c.id + 1, token)]),
                                         Ok(ReadReply(c.inbox[2]).value.payload))
  {
    var first, again, second := StatRequest(kind, c.id, c.challenge), HandshakeRequest(c.id + 1), StatRequest(kind, c.id + 1, token);
    var c2 := c.(id := c.id + 1, retries := 0, challenge := token, inbox := c.inbox[2..], sent := c.sent + [first] + [again]);
    assert HandshakeRun(StatFailedRead(kind, c)) == Run(c2, Ok(())) by {
      StatRehandshake(kind, c, token);
    }
    assert StatExchange(kind, c) == StatExchange(kind, c2) by {
      StatRetry(kind, c);
    }
    assert StatExchange(kind, c2) == Run(c2.(sent := c2.sent + [second], inbox := c2.inbox[1..]),
                                         Ok(ReadReply(c2.inbox[0]).value.payload)) by {
      StatFirstTry(kind, c2);
    }
    assert c2.inbox[0] == c.inbox[2] && c2.inbox[1..] == c.inbox[3..];
  }

  /** The handshake run by a stat call whose read failed, answered at once. */
  lemma StatRehandshake(kind: StatKind, c: Conn, token: seq<byte>)
    requires |c.inbox| >= 2 && InInt32(c.id) && InInt32(c.id + 1)
    requires ReadReply(c.inbox[1]).Some? && ChallengeToken(ReadReply(c.inbox[1]).value.payload) == Some(token)
    ensures HandshakeRun(StatFailedRead(kind, c))
         == Run(c.(id := c.id + 1, retries := 0, challenge := token, inbox := c.inbox[2..],
                   sent := c.sent + [StatRequest(kind, c.id, c.challenge)] + [HandshakeRequest(c.id + 1)]), Ok(()))
  {
    HandshakeAnswered(StatFailedRead(kind, c), token);
    assert c.inbox[1..][1..] == c.inbox[2..];
  }

  /** A failed read followed by a failed handshake makes the stat call raise the handshake's error. */
  lemma StatHandshakeFails(kind: StatKind, c: Conn)
    requires c.inbox != [] && ReadReply(c.inbox[0]).None? && InInt32(c.id)
    requires HandshakeRun(StatFailedRead(kind, c)).outcome.Err?
    ensures var h := HandshakeRun(StatFailedRead(kind, c));
      StatExchange(kind, c) == Run(h.after, Err(h.outcome.error))
  {
  }

  /** The scripted transport: outcomes still to be received, and every datagram sent. */
  class Socket {
    var inbox: seq<Reply>
    var sent: seq<seq<byte>>

    constructor (script: seq<Reply>)
      ensures inbox == script && sent == []
    {
      inbox := script;
      sent := [];
    }

    /** `sendto`. */
    method SendTo(packet: seq<byte>)
      modifies this
      ensures sent == old(sent) + [packet] && inbox == old(inbox)
    {
      sent := sent + [packet];
    }

    /** `recvfrom`: the next outcome of the script, or `None` when it has run out. */
    method RecvFrom() returns (r: Option<Reply>)
      modifies this
      ensures old(inbox) == [] ==> r.None? && inbox == old(inbox)
      ensures old(inbox) != [] ==> r == Some(old(inbox)[0]) && inbox == old(inbox)[1..]
      ensures sent == old(sent)
    {
      if inbox == [] {
        r := None;
      } else {
        r := Some(inbox[0]);
        inbox := inbox[1..];
      }
    }
  }

  /** A query session. */
  class MCQuery {
    var id: int
    var retries: int
    var maxRetries: int
    var challenge: seq<byte>
    const socket: Socket

    /** The session's state as a value. */
    function Snapshot(): Conn
      reads this, socket
    {
      Conn(id, retries, maxRetries, challenge, socket.inbox, socket.sent)
    }

    constructor (script: seq<Reply>, maxRetries: int)
      ensures Snapshot() == Conn(0, 0, maxRetries, [], script, [])
      ensures fresh(socket)
    {
      id := 0;
      retries := 0;
      this.maxRetries := maxRetries;
      challenge := [];
      socket := new Socket(script);
    }

    /** `MCQuery(host, port, max_retries=...)`: build the session and run its first handshake. */
    static method Open(script: seq<Reply>, maxRetries: int := DefaultMaxRetries)
      returns (q: MCQuery, r: Result<(), SessionError>)
      ensures fresh(q) && fresh(q.socket)
      ensures Run(q.Snapshot(), r) == HandshakeRun(Conn(0, 0, maxRetries, [], script, []))
      ensures r.Ok? ==> |q.challenge| == 4 && q.retries == 0
    {
      q := new MCQuery(script, maxRetries);
      r := q.Handshake();
      HandshakeOutcome(Conn(0, 0, maxRetries, [], script, []));
    }

    /** `write_packet`: `false` where packing the id raises, else the framed request is sent. */
    method WritePacket(kind: byte, payload: seq<byte>) returns (written: bool)
      modifies socket
      ensures written <==> EncodeRequest(kind, id, payload).Some?
      ensures socket.sent == old(socket.sent) + if written then [EncodeRequest(kind, id, payload).value] else []
      ensures socket.inbox == old(socket.inbox)
    {
      match EncodeRequest(kind, id, payload)
      case None =>
        written := false;
      case Some(packet) =>
        socket.SendTo(packet);
        written := true;
    }

    /** `read_packet`: the next outcome of the script, parsed. */
    method ReadPacket() returns (r: Read)
      modifies socket
      ensures r == NextRead(old(socket.inbox))
      ensures socket.inbox == if old(socket.inbox) == [] then [] else old(socket.inbox)[1..]
      ensures socket.sent == old(socket.sent)
    {
      var reply := socket.RecvFrom();
      match reply
      case None =>
        r := Ended;
      case Some(received) =>
        match ReadReply(received)
        case None =>
          r := Failed;
        case Some(h) =>
          r := Got(h);
    }

    /** `handshake`, retrying by calling itself as the client does. */
    method Handshake() returns (r: Result<(), SessionError>)
      modifies this, socket
      decreases |socket.inbox|
      ensures Run(Snapshot(), r) == HandshakeRun(old(Snapshot()))
    {
      ghost var c := Snapshot();
      id := id + 1;
      var written := WritePacket(HandshakeType, []);
      if !written {
        HandshakeIdOverflow(c);
        return Err(IdOutOfRange);
      }
      var read := ReadPacket();
      match read
      case Ended =>
        HandshakeEnded(c);
        r := Err(ScriptEnded);
      case Failed =>
        retries := retries + 1;
        assert Snapshot() == FailedAttempt(c);
        if retries == maxRetries {
          HandshakeAtLimit(c);
          r := Err(HandshakeLimit);
        } else {
          HandshakeRetry(c);
          r := Handshake();
        }
      case Got(h) =>
        retries := 0;
        match ChallengeToken(h.payload)
        case None =>
          HandshakeBadToken(c);
          r := Err(BadChallenge);
        case Some(token) =>
          challenge := token;
          r := Ok(());
          HandshakeAnswered(c, token);
    }

    /** `basic_stat` and `full_stat`, resending after a re-handshake by calling itself. */
    method Stat(kind: StatKind) returns (r: Result<OrderedDict, SessionError>)
      modifies this, socket
      decreases |socket.inbox|
      ensures Run(Snapshot(), r) == StatRun(kind, old(Snapshot()))
    {
      ghost var c := Snapshot();
      var written := WritePacket(StatType, StatPayload(kind, challenge));
      if !written {
        return Err(IdOutOfRange);
      }
      var read := ReadPacket();
      match read
      case Ended =>
        r := Err(ScriptEnded);
      case Failed =>
        assert Snapshot() == StatFailedRead(kind, c);
        var h := Handshake();
        if h.Err? {
          StatHandshakeFails(kind, c);
          return Err(h.error);
        }
        StatRetry(kind, c);
        r := Stat(kind);
      case Got(header) =>
        r := DecodeStat(kind, header.payload);
    }

    /** `basic_stat`. */
    method BasicStat() returns (r: Result<OrderedDict, SessionError>)
      modifies this, socket
      ensures Run(Snapshot(), r) == StatRun(Basic, old(Snapshot()))
    {
      r := Stat(Basic);
    }

    /** `full_stat`. */
    method FullStat() returns (r: Result<OrderedDict, SessionError>)
      modifies this, socket
      ensures Run(Snapshot(), r) == StatRun(Full, old(Snapshot()))
    {
      r := Stat(Full);
    }
  }
}
