/**
 * The session store of router/middlewares.go: the process-wide map from token to
 * session, and token generation from the secure random source.
 *
 * The random source is an input: the outcomes of its successive 32-byte reads.
 * A read either fills the buffer or fails; a source with no outcomes left reads
 * as a failure, as `io.ReadFull` reports a reader that has run dry.
 */
module Sessions {
  import opened Wrappers
  import Base64

  /** The contents of the 32-byte buffer `randomText` reads into. */
  type Block = b: seq<Base64.byte> | |b| == 32 witness seq(32, _ => 0)

  datatype Read = Filled(buf: Block) | ReadFailed

  /** The error `io.ReadFull` returns when the random source cannot fill the buffer. */
  datatype Error = RandomReadError

  datatype Session = Session(id: string, authorized: bool)

  /** `Session{}`, returned beside an error. */
  const ZeroSession := Session("", false)

  type Store = map<string, Session>

  /** What the handlers share: the session map and the random source's remaining reads. */
  datatype State = State(sessions: Store, random: seq<Read>)

  /** Every token in the store is the id of the session stored under it. */
  predicate KeysAreIds(store: Store) {
    forall k :: k in store ==> store[k].id == k
  }

  /** The outcome of the next read, and the reads that remain after it. */
  function ReadFull(random: seq<Read>): (r: (Read, seq<Read>))
    ensures random != [] ==> [r.0] + r.1 == random
    ensures random == [] ==> r.0 == ReadFailed && r.1 == []
  {
    if random == [] then (ReadFailed, []) else (random[0], random[1..])
  }

  /** `randomText`: the padded standard base64 text of the 32 bytes read, or `""` and the error. */
  function RandomText(read: Read): (r: (string, Option<Error>))
    ensures read.Filled? ==> r.1 == None && r.0 == Base64.Encode(read.buf) && Base64.Decode(r.0) == read.buf
    ensures read.Filled? ==> |r.0| == 44 && r.0[43] == '=' && forall i :: 0 <= i < 43 ==> Base64.IsAlphabetChar(r.0[i])
    ensures read.ReadFailed? ==> r == ("", Some(RandomReadError))
  {
    match read
    case Filled(buf) =>
      Base64.DecodeEncode(buf);
      Base64.TokenShape(buf);
      (Base64.Encode(buf), None)
    case ReadFailed => ("", Some(RandomReadError))
  }

  /** The result of `CreateSession` or `GetOrCreateSession`, with the state they leave behind. */
  datatype Step = Step(session: Session, err: Option<Error>, state: State)

  /** `CreateSession` on the state it reads and writes. */
  function Create(st: State): (r: Step)
    ensures r.state.random == ReadFull(st.random).1
    ensures r.err.None? <==> st.random != [] && st.random[0].Filled?
    ensures r.err.None? ==> && r.session == Session(Base64.Encode(st.random[0].buf), false)
                            && r.state.sessions == st.sessions[r.session.id := r.session]
    ensures r.err.Some? ==> r.session == ZeroSession && r.state.sessions == st.sessions
    ensures KeysAreIds(st.sessions) ==> KeysAreIds(r.state.sessions)
  {
    var (read, rest) := ReadFull(st.random);
    var (nextSessionId, err) := RandomText(read);
    if err.Some? then Step(ZeroSession, err, st.(random := rest))
    else
      var session := Session(nextSessionId, false);
      Step(session, None, State(st.sessions[nextSessionId := session], rest))
  }

  /** `GetOrCreateSession` on the state it reads and writes. */
  function GetOrCreate(st: State, sessionId: string): (r: Step)
    ensures sessionId in st.sessions ==> r == Step(st.sessions[sessionId], None, st)
    ensures sessionId !in st.sessions ==> r == Create(st)
    ensures sessionId !in st.sessions && r.err.None? ==> (sessionId in r.state.sessions <==> sessionId == r.session.id)
    ensures KeysAreIds(st.sessions) ==> KeysAreIds(r.state.sessions)
  {
    if sessionId in st.sessions then Step(st.sessions[sessionId], None, st)
    else
      var created := Create(st);
      if created.err.Some? then Step(ZeroSession, created.err, created.state) else created
  }

  /** A session just created is found again by its id, without a read and without a change to the store. */
  lemma CreatedIsRetrievable(st: State, random: seq<Read>)
    requires Create(st).err.None?
    ensures var created := Create(st);
            GetOrCreate(created.state.(random := random), created.session.id)
              == Step(created.session, None, created.state.(random := random))
  {
  }

  /** Two sessions created from different random bytes get different tokens. */
  lemma DistinctReadsDistinctTokens(st1: State, st2: State)
    requires Create(st1).err.None? && Create(st2).err.None?
    requires st1.random[0] != st2.random[0]
    ensures Create(st1).session.id != Create(st2).session.id
  {
    Base64.EncodeInjective(st1.random[0].buf, st2.random[0].buf);
  }

  /**
   * Creating a session twice, from two different outcomes of the random source,
   * gives two distinct sessions, both in the store afterwards.
   */
  lemma TwoCreationsBothStored(st: State)
    requires |st.random| >= 2 && st.random[0].Filled? && st.random[1].Filled? && st.random[0] != st.random[1]
    ensures var first := Create(st);
            var second := Create(first.state);
            && first.session.id != second.session.id
            && first.session.id in second.state.sessions && second.state.sessions[first.session.id] == first.session
            && second.session.id in second.state.sessions && second.state.sessions[second.session.id] == second.session
  {
    var first := Create(st);
    assert first.state.random[0] == st.random[1];
    DistinctReadsDistinctTokens(st, first.state);
  }

  /** The global `sessionMap`, with the random source it draws tokens from. */
  class SessionStore {
    var sessions: Store
    var random: seq<Read>

    ghost predicate Valid()
      reads this
    {
      KeysAreIds(sessions)
    }

    function Current(): State
      reads this
    {
      State(sessions, random)
    }

    /** `map[string]Session{}`, beside a random source whose reads will be `random`. */
    constructor (random: seq<Read>)
      ensures Valid()
      ensures sessions == map[] && this.random == random
    {
      sessions := map[];
      this.random := random;
    }

    method CreateSession() returns (session: Session, err: Option<Error>)
      requires Valid()
      modifies this
      ensures Valid()
      ensures Step(session, err, Current()) == Create(old(Current()))
      ensures err.None? ==> session.id in sessions && sessions[session.id] == session && !session.authorized
      ensures err.None? ==> forall k :: k != session.id ==> (k in sessions <==> k in old(sessions))
      ensures err.None? ==> forall k :: k != session.id && k in sessions ==> sessions[k] == old(sessions)[k]
      ensures err.Some? ==> session == ZeroSession && sessions == old(sessions)
    {
      var next := ReadFull(random);
      random := next.1;
      var text := RandomText(next.0);
      var nextSessionId, e := text.0, text.1;
      if e.Some? {
        return ZeroSession, e;
      }
      session := Session(nextSessionId, false);
      sessions := sessions[nextSessionId := session];
      err := None;
    }

    method GetOrCreateSession(sessionId: string) returns (session: Session, err: Option<Error>)
      requires Valid()
      modifies this
      ensures Valid()
      ensures Step(session, err, Current()) == GetOrCreate(old(Current()), sessionId)
      ensures sessionId in old(sessions) ==> session == old(sessions)[sessionId] && err.None? && sessions == old(sessions) && random == old(random)
      ensures sessionId !in old(sessions) ==> Step(session, err, Current()) == Create(old(Current()))
      ensures err.None? ==> session.id in sessions && sessions[session.id] == session
    {
      if sessionId in sessions {
        return sessions[sessionId], None;
      }
      var newSession, e := CreateSession();
      if e.Some? {
        return ZeroSession, e;
      }
      return newSession, None;
    }
  }
}
