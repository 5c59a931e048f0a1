/**
 * Authenticated session datagrams: sealing, opening, and whole conversations over a network that drops,
 * reorders, duplicates and forges.
 */
module Session {
  import opened Bytes
  import opened Options
  import opened ReplayWindow

  const SEQ_LEN: nat := 4
  const TAG_LEN: nat := 8
  const CIPHER_TAG_LEN: nat := 16
  const TRAILER_LEN: nat := SEQ_LEN + TAG_LEN
  const CIPHER_TRAILER_LEN: nat := SEQ_LEN + CIPHER_TAG_LEN

  datatype Direction = ToServer | ToClient {
    /** The byte the tag covers and the wire does not carry. */
    function Code(): Byte {
      if ToServer? then 1 else 2
    }
  }

  datatype AuthError = Truncated | BadTag | Replayed

  datatype Result<+T> = Ok(value: T) | Err(error: AuthError)

  /** One payload under the sequence number it was issued. */
  datatype Record = Record(direction: Direction, seqNo: nat, payload: seq<Byte>)

  /** A growable byte vector, shared with its caller. */
  class Buffer {
    var bytes: seq<Byte>

    constructor (bytes: seq<Byte>)
      ensures this.bytes == bytes
    {
      this.bytes := bytes;
    }
  }

  // ------------------------------------------------------------------ the keyed primitives

  /**
   * A session's keyed primitives. Without a session secret, a tag over the signed bytes; with one, an
   * AEAD under a nonce and associated data, whose encryption may decline a payload too long for it.
   */
  datatype Suite =
    | Clear(mac: seq<Byte> -> bv64)
    | Secret(encrypt: (seq<Byte>, seq<Byte>, seq<Byte>) -> Option<(seq<Byte>, seq<Byte>)>,
             decrypt: (seq<Byte>, seq<Byte>, seq<Byte>, seq<Byte>) -> Option<seq<Byte>>)

  /** What RFC 8439 section 2.8 gives: decryption undoes encryption, lengths fixed. */
  ghost predicate Sound(suite: Suite) {
    suite.Secret? ==>
      forall nonce, aad, plain | suite.encrypt(nonce, aad, plain).Some? ::
        var out := suite.encrypt(nonce, aad, plain).value;
        |out.1| == CIPHER_TAG_LEN && suite.decrypt(nonce, aad, out.0, out.1) == Some(plain)
  }

  function TagBytes(tag: bv64): (bs: seq<Byte>)
    ensures |bs| == TAG_LEN
  {
    LeBytes(tag as nat, TAG_LEN)
  }

  function TagOf(bs: seq<Byte>): bv64
    requires |bs| == TAG_LEN
  {
    LeBounded(bs);
    Pow2Of64();
    LeValue(bs) as bv64
  }

  lemma TagRoundTrip(tag: bv64)
    ensures TagOf(TagBytes(tag)) == tag
  {
    Pow2Of64();
    LeRoundTrip(tag as nat, TAG_LEN);
  }

  /** The comparison without branches: fold every differing bit down to bit 0, then test once. */
  method TagsEqual(a: bv64, b: bv64) returns (equal: bool)
    ensures equal <==> a == b
  {
    var diff := a ^ b;
    var folded := ((diff | (diff >> 32)) & 0xffff_ffff) as bv32;
    folded := folded | (folded >> 16);
    folded := folded | (folded >> 8);
    folded := folded | (folded >> 4);
    folded := folded | (folded >> 2);
    folded := folded | (folded >> 1);
    equal := (folded & 1) == 0;
  }

  // ------------------------------------------------------------------ datagrams

  function SeqBytes(seqNo: nat): (bs: seq<Byte>)
    ensures |bs| == SEQ_LEN
  {
    LeBytes(seqNo, SEQ_LEN)
  }

  function SeqOf(bs: seq<Byte>): (seqNo: nat)
    requires |bs| == SEQ_LEN
    ensures seqNo < U32
  {
    LeBounded(bs);
    Pow2Of64();
    LeValue(bs)
  }

  lemma SeqRoundTrip(seqNo: nat)
    requires seqNo < U32
    ensures SeqOf(SeqBytes(seqNo)) == seqNo
  {
    Pow2Of64();
    LeRoundTrip(seqNo, SEQ_LEN);
  }

  function Nonce(direction: Direction, seqNo: nat): seq<Byte> {
    [direction.Code()] + SeqBytes(seqNo) + [0, 0, 0, 0, 0, 0, 0]
  }

  function Aad(direction: Direction, seqNo: nat): seq<Byte> {
    SeqBytes(seqNo) + [direction.Code()]
  }

  function Signed(payload: seq<Byte>, seqNo: nat): seq<Byte> {
    payload + SeqBytes(seqNo)
  }

  /** What the tag is taken over: the signed bytes, then the direction. */
  function MacInput(direction: Direction, signed: seq<Byte>): seq<Byte> {
    signed + [direction.Code()]
  }

  /** The bytes on the wire for one record, unless the cipher declines it. */
  function Datagram(suite: Suite, r: Record): Option<seq<Byte>> {
    match suite
    case Clear(mac) =>
      var signed := Signed(r.payload, r.seqNo);
      Some(signed + TagBytes(mac(MacInput(r.direction, signed))))
    case Secret(encrypt, _) =>
      match encrypt(Nonce(r.direction, r.seqNo), Aad(r.direction, r.seqNo), r.payload)
      case None => None
      case Some((ciphertext, tag)) => Some(ciphertext + SeqBytes(r.seqNo) + tag)
  }

  function AuthenticateClear(mac: seq<Byte> -> bv64, direction: Direction, datagram: seq<Byte>): Result<Record> {
    if |datagram| < TRAILER_LEN then Err(Truncated)
    else
      var split := |datagram| - TAG_LEN;
      var signed := datagram[..split];
      if TagOf(datagram[split..]) != mac(MacInput(direction, signed)) then Err(BadTag)
      else
        var length := |signed| - SEQ_LEN;
        Ok(Record(direction, SeqOf(signed[length..]), signed[..length]))
  }

  function AuthenticateSecret(decrypt: (seq<Byte>, seq<Byte>, seq<Byte>, seq<Byte>) -> Option<seq<Byte>>,
                              direction: Direction, datagram: seq<Byte>): Result<Record> {
    if |datagram| < CIPHER_TRAILER_LEN then Err(Truncated)
    else
      var split := |datagram| - CIPHER_TRAILER_LEN;
      var seqNo := SeqOf(datagram[split..split + SEQ_LEN]);
      match decrypt(Nonce(direction, seqNo), Aad(direction, seqNo), datagram[..split], datagram[split + SEQ_LEN..])
      case None => Err(BadTag)
      case Some(plain) => Ok(Record(direction, seqNo, plain))
  }

  /** Everything opening does before it consults the window. */
  function Authenticate(suite: Suite, direction: Direction, datagram: seq<Byte>): (r: Result<Record>)
    ensures r.Ok? ==> r.value.direction == direction
  {
    match suite
    case Clear(mac) => AuthenticateClear(mac, direction, datagram)
    case Secret(_, decrypt) => AuthenticateSecret(decrypt, direction, datagram)
  }

  /** A sealed record authenticates as itself. */
  lemma SealedAuthenticates(suite: Suite, r: Record)
    requires Sound(suite) && r.seqNo < U32 && Datagram(suite, r).Some?
    ensures Authenticate(suite, r.direction, Datagram(suite, r).value) == Ok(r)
  {
    SeqRoundTrip(r.seqNo);
    var datagram := Datagram(suite, r).value;
    match suite
    case Clear(mac) =>
      var signed := Signed(r.payload, r.seqNo);
      TagRoundTrip(mac(MacInput(r.direction, signed)));
      assert datagram[..|signed|] == signed && datagram[|signed|..] == TagBytes(mac(MacInput(r.direction, signed)));
      assert signed[..|r.payload|] == r.payload && signed[|r.payload|..] == SeqBytes(r.seqNo);
    case Secret(encrypt, decrypt) =>
      var out := encrypt(Nonce(r.direction, r.seqNo), Aad(r.direction, r.seqNo), r.payload).value;
      var split := |out.0|;
      assert datagram[..split] == out.0;
      assert datagram[split..split + SEQ_LEN] == SeqBytes(r.seqNo);
      assert datagram[split + SEQ_LEN..] == out.1;
  }

  lemma CodesDiffer(a: Direction, b: Direction)
    requires a.Code() == b.Code()
    ensures a == b
  {
  }

  /** No two (direction, sequence) pairs share a nonce. */
  lemma NonceInjective(d1: Direction, s1: nat, d2: Direction, s2: nat)
    requires s1 < U32 && s2 < U32 && Nonce(d1, s1) == Nonce(d2, s2)
    ensures d1 == d2 && s1 == s2
  {
    assert d1.Code() == Nonce(d1, s1)[0] == Nonce(d2, s2)[0] == d2.Code();
    CodesDiffer(d1, d2);
    assert SeqBytes(s1) == Nonce(d1, s1)[1..5] == Nonce(d2, s2)[1..5] == SeqBytes(s2);
    SeqRoundTrip(s1);
    SeqRoundTrip(s2);
  }

  /** Payload, sequence and direction are all recoverable from what the tag covers. */
  lemma MacInputInjective(d1: Direction, p1: seq<Byte>, s1: nat, d2: Direction, p2: seq<Byte>, s2: nat)
    requires s1 < U32 && s2 < U32 && MacInput(d1, Signed(p1, s1)) == MacInput(d2, Signed(p2, s2))
    ensures d1 == d2 && p1 == p2 && s1 == s2
  {
    var m := MacInput(d1, Signed(p1, s1));
    assert |m| == |p1| + SEQ_LEN + 1 && |p1| == |p2|;
    assert d1.Code() == m[|m| - 1] == d2.Code();
    CodesDiffer(d1, d2);
    assert p1 == m[..|p1|] && p2 == m[..|p1|];
    assert SeqBytes(s1) == m[|p1|..|m| - 1] == SeqBytes(s2);
    SeqRoundTrip(s1);
    SeqRoundTrip(s2);
  }

  // ------------------------------------------------------------------ one end of a session

  /** What the window makes of an authenticated record. */
  ghost function Screened(answer: Result<Record>, accepted: set<nat>): Result<seq<Byte>> {
    match answer
    case Err(error) => Err(error)
    case Ok(r) => if Admissible(accepted, r.seqNo) then Ok(r.payload) else Err(Replayed)
  }

  ghost function AcceptedWith(answer: Result<Record>, accepted: set<nat>): set<nat> {
    if Screened(answer, accepted).Ok? then accepted + {answer.value.seqNo} else accepted
  }

  /** What a refusal says: too short for its trailer, not verifying, or a number that is not admissible. */
  lemma RefusalsAreTold(suite: Suite, direction: Direction, datagram: seq<Byte>, accepted: set<nat>)
    ensures var r := Screened(Authenticate(suite, direction, datagram), accepted);
            var trailer := if suite.Clear? then 12 else 20;
            && (r == Err(Truncated) <==> |datagram| < trailer)
            && (r == Err(Replayed) <==> Authenticate(suite, direction, datagram).Ok?
                                        && !Admissible(accepted, Authenticate(suite, direction, datagram).value.seqNo))
            && (r == Err(BadTag) <==> |datagram| >= trailer && Authenticate(suite, direction, datagram).Err?)
  {
  }

  class SessionAuth {
    const suite: Suite
    var nextSeq: nat
    const window: ReplayWindow

    ghost predicate Valid()
      reads this, window
    {
      nextSeq < U32 && window.Valid()
    }

    /** Every number this end has accepted from the other. */
    ghost function Accepted(): set<nat>
      reads this, window
    {
      window.accepted
    }

    constructor (suite: Suite)
      ensures Valid() && fresh(window) && this.suite == suite && nextSeq == 1 && Accepted() == {}
    {
      this.suite := suite;
      nextSeq := 1;
      window := new ReplayWindow();
    }

    /** Turn `payload` into a datagram, consuming one sequence number; refuse once the counter is spent. */
    method Seal(direction: Direction, payload: Buffer) returns (sealed: bool)
      requires Valid()
      modifies this, payload
      ensures Valid()
      ensures nextSeq == if old(nextSeq) == 0 then 0 else (old(nextSeq) + 1) % U32
      ensures var datagram := Datagram(suite, Record(direction, old(nextSeq), old(payload.bytes)));
              && (sealed <==> old(nextSeq) != 0 && datagram.Some?)
              && (sealed ==> payload.bytes == datagram.value)
    {
      if nextSeq == 0 {
        return false;
      }
      var seqNo := nextSeq;
      nextSeq := (nextSeq + 1) % U32;
      match suite
      case Clear(mac) =>
        payload.bytes := payload.bytes + SeqBytes(seqNo);
        var tag := mac(MacInput(direction, payload.bytes));
        payload.bytes := payload.bytes + TagBytes(tag);
        return true;
      case Secret(encrypt, _) =>
        match encrypt(Nonce(direction, seqNo), Aad(direction, seqNo), payload.bytes)
        case None => return false;
        case Some((ciphertext, tag)) =>
          payload.bytes := ciphertext + SeqBytes(seqNo);
          payload.bytes := payload.bytes + tag;
          return true;
    }

    /**
     * Verify `datagram`: authenticate, then consult the window, and only then answer the payload. The
     * window moves only on success, and `plain` never keeps bytes that were refused.
     */
    method Open(direction: Direction, datagram: seq<Byte>, plain: Buffer) returns (r: Result<seq<Byte>>)
      requires Valid()
      modifies window, plain
      ensures Valid()
      ensures r == Screened(Authenticate(suite, direction, datagram), old(Accepted()))
      ensures Accepted() == AcceptedWith(Authenticate(suite, direction, datagram), old(Accepted()))
      ensures !r.Ok? ==> window.newest == old(window.newest) && window.bitmap == old(window.bitmap)
      ensures plain.bytes == if suite.Clear? || r == Err(Truncated) then old(plain.bytes)
                             else if r.Ok? then r.value else []
    {
      match suite
      case Clear(mac) => r := OpenClear(mac, direction, datagram);
      case Secret(_, decrypt) => r := OpenSecret(decrypt, direction, datagram, plain);
    }

    method OpenClear(mac: seq<Byte> -> bv64, direction: Direction, datagram: seq<Byte>) returns (r: Result<seq<Byte>>)
      requires Valid()
      modifies window
      ensures Valid()
      ensures r == Screened(AuthenticateClear(mac, direction, datagram), old(Accepted()))
      ensures Accepted() == AcceptedWith(AuthenticateClear(mac, direction, datagram), old(Accepted()))
      ensures !r.Ok? ==> window.newest == old(window.newest) && window.bitmap == old(window.bitmap)
    {
      var answer := VerifyClear(mac, direction, datagram);
      if answer.Err? {
        return Err(answer.error);
      }
      var isNew := window.Accept(answer.value.seqNo);
      if !isNew {
        return Err(Replayed);
      }
      return Ok(answer.value.payload);
    }

    /** Check the tag before anything else is read. */
    static method VerifyClear(mac: seq<Byte> -> bv64, direction: Direction, datagram: seq<Byte>)
      returns (answer: Result<Record>)
      ensures answer == AuthenticateClear(mac, direction, datagram)
    {
      if |datagram| < TRAILER_LEN {
        return Err(Truncated);
      }
      var split := |datagram| - TAG_LEN;
      var signed, tag := datagram[..split], TagOf(datagram[split..]);
      var equal := TagsEqual(tag, mac(MacInput(direction, signed)));
      if !equal {
        return Err(BadTag);
      }
      var length := |signed| - SEQ_LEN;
      return Ok(Record(direction, SeqOf(signed[length..]), signed[..length]));
    }

    method OpenSecret(decrypt: (seq<Byte>, seq<Byte>, seq<Byte>, seq<Byte>) -> Option<seq<Byte>>,
                      direction: Direction, datagram: seq<Byte>, plain: Buffer) returns (r: Result<seq<Byte>>)
      requires Valid()
      modifies window, plain
      ensures Valid()
      ensures r == Screened(AuthenticateSecret(decrypt, direction, datagram), old(Accepted()))
      ensures Accepted() == AcceptedWith(AuthenticateSecret(decrypt, direction, datagram), old(Accepted()))
      ensures !r.Ok? ==> window.newest == old(window.newest) && window.bitmap == old(window.bitmap)
      ensures plain.bytes == if r == Err(Truncated) then old(plain.bytes) else if r.Ok? then r.value else []
    {
      if |datagram| < CIPHER_TRAILER_LEN {
        return Err(Truncated);
      }
      var split := |datagram| - CIPHER_TRAILER_LEN;
      var seqNo := SeqOf(datagram[split..split + SEQ_LEN]);
      plain.bytes := datagram[..split];
      match decrypt(Nonce(direction, seqNo), Aad(direction, seqNo), plain.bytes, datagram[split + SEQ_LEN..])
      case None =>
        plain.bytes := [];
        return Err(BadTag);
      case Some(text) =>
        plain.bytes := text;
        var isNew := window.Accept(seqNo);
        if !isNew {
          plain.bytes := [];
          return Err(Replayed);
        }
        return Ok(plain.bytes);
    }
  }

  // ------------------------------------------------------------------ whole conversations

  /** One direction: the sender's counter, and what the receiver's window has accepted. */
  datatype Lane = Lane(nextSeq: nat, accepted: set<nat>)

  /** Both directions, every record issued a number, and every record opened, in order. */
  datatype World = World(toServer: Lane, toClient: Lane, issued: seq<Record>, received: seq<Record>) {
    function On(direction: Direction): Lane {
      if direction.ToServer? then toServer else toClient
    }

    function With(direction: Direction, lane: Lane): World {
      if direction.ToServer? then this.(toServer := lane) else this.(toClient := lane)
    }
  }

  const START: World := World(Lane(1, {}), Lane(1, {}), [], [])

  /** An end seals a payload, or the network hands the end at `direction`'s far side some bytes. */
  datatype Event = Send(direction: Direction, payload: seq<Byte>) | Deliver(direction: Direction, datagram: seq<Byte>)

  function Issue(w: World, direction: Direction, payload: seq<Byte>): World {
    var lane := w.On(direction);
    if lane.nextSeq == 0 then w
    else w.With(direction, lane.(nextSeq := (lane.nextSeq + 1) % U32))
          .(issued := w.issued + [Record(direction, lane.nextSeq, payload)])
  }

  ghost function Receive(w: World, r: Record): World {
    var lane := w.On(r.direction);
    if Admissible(lane.accepted, r.seqNo)
    then w.With(r.direction, lane.(accepted := lane.accepted + {r.seqNo})).(received := w.received + [r])
    else w
  }

  ghost function Step(suite: Suite, w: World, e: Event): World {
    match e
    case Send(direction, payload) => Issue(w, direction, payload)
    case Deliver(direction, datagram) =>
      var answer := Authenticate(suite, direction, datagram);
      if answer.Ok? then Receive(w, answer.value) else w
  }

  ghost function Run(suite: Suite, events: seq<Event>): World {
    if events == [] then START
    else Step(suite, Run(suite, events[..|events| - 1]), events[|events| - 1])
  }

  /**
   * The primitives' own promise, and all that is asked of the network: bytes that verify were produced
   * by an end. What that end meant by them - which direction, number and payload - is not assumed.
   */
  ghost predicate Unforged(suite: Suite, issued: seq<Record>, e: Event) {
    e.Deliver? ==>
      match suite
      case Clear(mac) =>
        Authenticate(suite, e.direction, e.datagram).Ok? ==>
          exists r :: r in issued
            && MacInput(r.direction, Signed(r.payload, r.seqNo))
              == MacInput(e.direction, e.datagram[..|e.datagram| - TAG_LEN])
      case Secret(encrypt, _) =>
        Authenticate(suite, e.direction, e.datagram).Ok? ==>
          var split := |e.datagram| - CIPHER_TRAILER_LEN;
          var seqNo := SeqOf(e.datagram[split..split + SEQ_LEN]);
          exists r :: r in issued
            && Nonce(r.direction, r.seqNo) == Nonce(e.direction, seqNo)
            && encrypt(Nonce(r.direction, r.seqNo), Aad(r.direction, r.seqNo), r.payload)
               == Some((e.datagram[..split], e.datagram[split + SEQ_LEN..]))
  }

  ghost predicate NothingForged(suite: Suite, events: seq<Event>) {
    forall i :: 0 <= i < |events| ==> Unforged(suite, Run(suite, events[..i]).issued, events[i])
  }

  /** Bytes that open are exactly a record an end issued in this direction: none reflected, none altered. */
  lemma OnlyIssuedOpens(suite: Suite, issued: seq<Record>, direction: Direction, datagram: seq<Byte>)
    requires Sound(suite) && forall r :: r in issued ==> r.seqNo < U32
    requires Unforged(suite, issued, Deliver(direction, datagram))
    requires Authenticate(suite, direction, datagram).Ok?
    ensures Authenticate(suite, direction, datagram).value in issued
  {
    var received := Authenticate(suite, direction, datagram).value;
    match suite
    case Clear(mac) =>
      var signed := datagram[..|datagram| - TAG_LEN];
      var r :| r in issued && MacInput(r.direction, Signed(r.payload, r.seqNo)) == MacInput(direction, signed);
      SignedSplits(signed);
      MacInputInjective(r.direction, r.payload, r.seqNo, direction, received.payload, received.seqNo);
    case Secret(encrypt, decrypt) =>
      var split := |datagram| - CIPHER_TRAILER_LEN;
      var r :| r in issued && Nonce(r.direction, r.seqNo) == Nonce(direction, received.seqNo)
            && encrypt(Nonce(r.direction, r.seqNo), Aad(r.direction, r.seqNo), r.payload)
               == Some((datagram[..split], datagram[split + SEQ_LEN..]));
      NonceInjective(r.direction, r.seqNo, direction, received.seqNo);
  }

  lemma SignedSplits(signed: seq<Byte>)
    requires |signed| >= SEQ_LEN
    ensures var length := |signed| - SEQ_LEN; Signed(signed[..length], SeqOf(signed[length..])) == signed
  {
    var length := |signed| - SEQ_LEN;
    SeqInverse(signed[length..]);
    assert signed[..length] + signed[length..] == signed;
  }

  lemma SeqInverse(bs: seq<Byte>)
    requires |bs| == SEQ_LEN
    ensures SeqBytes(SeqOf(bs)) == bs
  {
    LeInverse(bs);
  }

  /** The numbers issued in one direction, in order. */
  function Numbers(issued: seq<Record>, direction: Direction): seq<nat> {
    if issued == [] then []
    else
      var r := issued[|issued| - 1];
      Numbers(issued[..|issued| - 1], direction) + if r.direction == direction then [r.seqNo] else []
  }

  /** Numbers run 1, 2, 3, ... and the counter is the next of them, or spent after the last. */
  ghost predicate Counted(w: World, direction: Direction) {
    var numbers := Numbers(w.issued, direction);
    && |numbers| < U32
    && w.On(direction).nextSeq == (|numbers| + 1) % U32
    && forall k :: 0 <= k < |numbers| ==> numbers[k] == k + 1
  }

  /** Every number issued is below the counter, until the counter is spent. */
  ghost predicate IssuedBelow(w: World) {
    && (forall r :: r in w.issued ==> 0 < r.seqNo < U32)
    && (forall r :: r in w.issued && w.On(r.direction).nextSeq != 0 ==> r.seqNo < w.On(r.direction).nextSeq)
  }

  /** No number is issued twice in one direction: each is above all before it. */
  ghost predicate IssuedOnce(w: World) {
    forall i, j :: 0 <= i < j < |w.issued| && w.issued[i].direction == w.issued[j].direction
      ==> w.issued[i].seqNo < w.issued[j].seqNo
  }

  /** Everything received was issued, and nothing was received twice. */
  ghost predicate ReceivedOnce(w: World) {
    && (forall r :: r in w.received ==> r in w.issued && r.seqNo in w.On(r.direction).accepted)
    && (forall i, j :: 0 <= i < j < |w.received| && w.received[i].direction == w.received[j].direction
          ==> w.received[i].seqNo != w.received[j].seqNo)
  }

  lemma IssueKeepsBelow(w: World, direction: Direction, payload: seq<Byte>)
    requires IssuedBelow(w) && w.On(direction).nextSeq < U32
    ensures IssuedBelow(Issue(w, direction, payload))
  {
  }

  lemma IssueKeepsOrder(w: World, direction: Direction, payload: seq<Byte>)
    requires IssuedBelow(w) && IssuedOnce(w)
    ensures IssuedOnce(Issue(w, direction, payload))
  {
  }

  lemma IssueKeepsReceived(w: World, direction: Direction, payload: seq<Byte>)
    requires ReceivedOnce(w)
    ensures ReceivedOnce(Issue(w, direction, payload))
  {
  }

  lemma IssueKeepsCount(w: World, sender: Direction, payload: seq<Byte>, direction: Direction)
    requires Counted(w, direction)
    ensures Counted(Issue(w, sender, payload), direction)
  {
  }

  lemma ReceiveKeeps(w: World, r: Record)
    requires ReceivedOnce(w) && r in w.issued
    ensures ReceivedOnce(Receive(w, r))
  {
  }

  ghost predicate Safe(w: World) {
    IssuedBelow(w) && IssuedOnce(w) && ReceivedOnce(w) && Counted(w, ToServer) && Counted(w, ToClient)
  }

  lemma SendKeepsSafe(w: World, direction: Direction, payload: seq<Byte>)
    requires Safe(w)
    ensures Safe(Issue(w, direction, payload))
  {
    IssueKeepsBelow(w, direction, payload);
    IssueKeepsOrder(w, direction, payload);
    IssueKeepsReceived(w, direction, payload);
    IssueKeepsCount(w, direction, payload, ToServer);
    IssueKeepsCount(w, direction, payload, ToClient);
  }

  lemma ReceiveKeepsSafe(w: World, r: Record)
    requires Safe(w) && r in w.issued
    ensures Safe(Receive(w, r))
  {
    ReceiveKeeps(w, r);
    ReceiveKeepsIssued(w, r);
  }

  lemma ReceiveKeepsIssued(w: World, r: Record)
    ensures var next := Receive(w, r);
            && next.issued == w.issued
            && next.toServer.nextSeq == w.toServer.nextSeq && next.toClient.nextSeq == w.toClient.nextSeq
  {
  }

  /**
   * Over every conversation, whatever the network does: numbers count up from 1 and are never reused;
   * every payload received is one the other end sealed, unchanged, and none is received twice.
   */
  lemma {:induction false} ConversationsAreSafe(suite: Suite, events: seq<Event>)
    requires Sound(suite) && NothingForged(suite, events)
    ensures Safe(Run(suite, events))
  {
    if events != [] {
      var n := |events| - 1;
      NothingForgedBefore(suite, events);
      ConversationsAreSafe(suite, events[..n]);
      StepKeepsSafe(suite, Run(suite, events[..n]), events[n]);
    }
  }

  lemma IssuedFit(w: World)
    requires Safe(w)
    ensures forall r :: r in w.issued ==> r.seqNo < U32
  {
  }

  lemma StepKeepsSafe(suite: Suite, w: World, e: Event)
    requires Sound(suite) && Safe(w) && Unforged(suite, w.issued, e)
    ensures Safe(Step(suite, w, e))
  {
    match e
    case Send(direction, payload) => SendKeepsSafe(w, direction, payload);
    case Deliver(direction, datagram) =>
      var answer := Authenticate(suite, direction, datagram);
      if answer.Ok? {
        IssuedFit(w);
        OnlyIssuedOpens(suite, w.issued, direction, datagram);
        ReceiveKeepsSafe(w, answer.value);
      }
  }

  lemma NothingForgedBefore(suite: Suite, events: seq<Event>)
    requires NothingForged(suite, events) && events != []
    ensures NothingForged(suite, events[..|events| - 1])
  {
    var earlier := events[..|events| - 1];
    forall i | 0 <= i < |earlier| ensures Unforged(suite, Run(suite, earlier[..i]).issued, earlier[i]) {
      assert earlier[..i] == events[..i];
    }
  }

  /** No nonce is used for two records, in either direction, in any conversation. */
  lemma NoncesNeverRepeat(suite: Suite, events: seq<Event>, i: nat, j: nat)
    requires Sound(suite) && NothingForged(suite, events)
    requires i < j < |Run(suite, events).issued|
    ensures var issued := Run(suite, events).issued;
            Nonce(issued[i].direction, issued[i].seqNo) != Nonce(issued[j].direction, issued[j].seqNo)
  {
    ConversationsAreSafe(suite, events);
    var a, b := Run(suite, events).issued[i], Run(suite, events).issued[j];
    assert a in Run(suite, events).issued && b in Run(suite, events).issued;
    if Nonce(a.direction, a.seqNo) == Nonce(b.direction, b.seqNo) {
      NonceInjective(a.direction, a.seqNo, b.direction, b.seqNo);
    }
  }

  lemma SpentStep(suite: Suite, w: World, e: Event, direction: Direction)
    requires w.On(direction).nextSeq == 0
    ensures var next := Step(suite, w, e);
            next.On(direction).nextSeq == 0 && Numbers(next.issued, direction) == Numbers(w.issued, direction)
  {
  }

  /** A spent counter never seals again. */
  lemma {:induction false} SpentStaysSpent(suite: Suite, events: seq<Event>, i: nat, direction: Direction)
    requires i <= |events| && Run(suite, events[..i]).On(direction).nextSeq == 0
    ensures Run(suite, events).On(direction).nextSeq == 0
    ensures Numbers(Run(suite, events).issued, direction) == Numbers(Run(suite, events[..i]).issued, direction)
  {
    if i == |events| {
      assert events[..i] == events;
    } else {
      var earlier := events[..|events| - 1];
      assert earlier[..i] == events[..i];
      SpentStaysSpent(suite, earlier, i, direction);
      SpentStep(suite, Run(suite, earlier), events[|events| - 1], direction);
    }
  }

  /** A sealed datagram the window still covers opens, with the payload that was sealed. */
  lemma CoveredDatagramOpens(suite: Suite, w: World, r: Record)
    requires Sound(suite) && r.seqNo < U32 && Datagram(suite, r).Some?
    requires Admissible(w.On(r.direction).accepted, r.seqNo)
    ensures Step(suite, w, Deliver(r.direction, Datagram(suite, r).value)).received == w.received + [r]
  {
    SealedAuthenticates(suite, r);
  }

  /** Two ends hold, between them, exactly the state `w`. */
  ghost predicate Between(client: SessionAuth, server: SessionAuth, suite: Suite, w: World)
    reads client, client.window, server, server.window
  {
    && client != server && client.window != server.window
    && client.Valid() && server.Valid() && client.suite == suite && server.suite == suite
    && w.toServer == Lane(client.nextSeq, server.Accepted())
    && w.toClient == Lane(server.nextSeq, client.Accepted())
  }

  /** The payloads handed over are those of the records received. */
  predicate PayloadsOf(payloads: seq<seq<Byte>>, records: seq<Record>) {
    |payloads| == |records| && forall i :: 0 <= i < |payloads| ==> payloads[i] == records[i].payload
  }

  /** One end seals: the other is untouched. */
  method SendOne(client: SessionAuth, server: SessionAuth, suite: Suite, direction: Direction, payload: seq<Byte>,
                 ghost w: World)
    requires Between(client, server, suite, w)
    modifies client, server
    ensures Between(client, server, suite, Step(suite, w, Send(direction, payload)))
  {
    var buffer := new Buffer(payload);
    var sender := if direction.ToServer? then client else server;
    var _ := sender.Seal(direction, buffer);
  }

  /** One end is handed bytes from the network, and answers the payload if they open. */
  method DeliverOne(client: SessionAuth, server: SessionAuth, suite: Suite, direction: Direction, datagram: seq<Byte>,
                    ghost w: World)
    returns (r: Result<seq<Byte>>)
    requires Between(client, server, suite, w)
    modifies client.window, server.window
    ensures Between(client, server, suite, Step(suite, w, Deliver(direction, datagram)))
    ensures r == Screened(Authenticate(suite, direction, datagram), w.On(direction).accepted)
  {
    var plain := new Buffer([]);
    var receiver := if direction.ToServer? then server else client;
    r := receiver.Open(direction, datagram, plain);
  }

  /** Drive both ends of a session: they hold, between them, exactly the state of the run. */
  method {:induction false} Converse(suite: Suite, events: seq<Event>)
    returns (client: SessionAuth, server: SessionAuth, received: seq<seq<Byte>>)
    ensures fresh(client) && fresh(client.window) && fresh(server) && fresh(server.window)
    ensures Between(client, server, suite, Run(suite, events)) && PayloadsOf(received, Run(suite, events).received)
    decreases |events|
  {
    if events == [] {
      client := new SessionAuth(suite);
      server := new SessionAuth(suite);
      return client, server, [];
    }
    var n := |events| - 1;
    client, server, received := Converse(suite, events[..n]);
    ghost var w := Run(suite, events[..n]);
    match events[n]
    case Send(direction, payload) =>
      SendOne(client, server, suite, direction, payload, w);
    case Deliver(direction, datagram) =>
      var r := DeliverOne(client, server, suite, direction, datagram, w);
      if r.Ok? {
        received := received + [r.value];
      }
  }
}
