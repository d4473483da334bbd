/**
  `Plugin.Extract`: answering a field request for an event, decoding the
  event's payload at most once per event number thanks to a one-slot cache
  (`lastLsmEventNum`, `lastLsmEventMessage`).
 */
module Extractor {
  import opened Base
  import opened Message
  import opened Fields

  /** The errors `Extract` returns. */
  datatype ExtractError =
    | ReadError                    // the payload reader failed
    | DecodeError                  // the payload is not a JSON object of strings
    | NoKnownField(field: string)  // the default branch of the switch

  /** What the host sees: a value set on the request, or an error and no value. */
  datatype Outcome = Set(value: string) | Failed(err: ExtractError)

  /** The part of `sdk.EventReader` that `Extract` uses: the number and what reading the payload gives. */
  datatype Event = Event(num: u64, payload: ReadOutcome)

  /** One field request of the host. */
  datatype Request = Request(field: string, evt: Event)

  /** The contents of the two cache fields of `Plugin`. */
  datatype Cache = Cache(lastNum: u64, lastMsg: LsmMessage)

  /** Zero values of the struct fields: event 0 with an all-empty message. */
  const Initial: Cache := Cache(0, Empty)

  /** The JSON decoder, a library routine outside the model. */
  type Decoder = Bytes -> DecodeOutcome

  datatype Step = Step(answer: Outcome, cache: Cache)

  /** The switch with its default branch turned into an error. */
  function Answer(field: string, m: LsmMessage): Outcome
  {
    match Select(field, m)
    case Some(v) => Set(v)
    case None => Failed(NoKnownField(field))
  }

  /** True when a request for `evt` against cache `c` runs the decoder. */
  predicate Decodes(c: Cache, evt: Event)
  {
    evt.num != c.lastNum && evt.payload.Read?
  }

  /**
    One call of `Extract`: a cache hit answers from the cached message; a new
    number reads and decodes the payload into a copy of the cached message,
    stores the result and only then dispatches on the field name.
   */
  function ExtractStep(c: Cache, field: string, evt: Event, decode: Decoder): Step
  {
    if evt.num == c.lastNum then Step(Answer(field, c.lastMsg), c)
    else match evt.payload
      case ReadFailed => Step(Failed(ReadError), c)
      case Read(data) =>
        match decode(data)
        case Malformed => Step(Failed(DecodeError), c)
        case Decoded(keys) =>
          var msg := Overlay(c.lastMsg, keys);
          Step(Answer(field, msg), Cache(evt.num, msg))
  }

  /** The answer is a value exactly for the seven declared names, and then it is the attribute of that name. */
  lemma AnswerIsTableLookup(field: string, m: LsmMessage)
    ensures Answer(field, m).Set? <==> Declared(field)
    ensures Answer(field, m).Set? ==> Some(Answer(field, m).value) == Get(m, TagOf[field])
    ensures Answer(field, m).Failed? ==> Answer(field, m).err == NoKnownField(field)
  {
    SelectFollowsTable(field, m);
  }

  /**
    A request for the cached number neither reads nor decodes: whatever the
    payload and the decoder, it answers from the cached message and leaves the
    cache as it was.
   */
  lemma HitIgnoresPayload(c: Cache, field: string, evt: Event, decode: Decoder, other: ReadOutcome, decode': Decoder)
    requires evt.num == c.lastNum
    ensures !Decodes(c, evt)
    ensures ExtractStep(c, field, evt, decode) == ExtractStep(c, field, Event(evt.num, other), decode')
    ensures ExtractStep(c, field, evt, decode).cache == c
    ensures ExtractStep(c, field, evt, decode).answer == Answer(field, c.lastMsg)
  {
  }

  /** Asking the same question twice gives the same answer and leaves the same cache. */
  lemma Idempotent(c: Cache, field: string, evt: Event, decode: Decoder)
    ensures var s := ExtractStep(c, field, evt, decode);
            ExtractStep(s.cache, field, evt, decode) == s
  {
  }

  /** On the fresh plugin, event 0 is a hit: every declared field is the empty string and nothing is decoded. */
  lemma FirstRequestForEventZero(field: string, payload: ReadOutcome, decode: Decoder)
    requires Declared(field)
    ensures !Decodes(Initial, Event(0, payload))
    ensures ExtractStep(Initial, field, Event(0, payload), decode) == Step(Set(""), Initial)
  {
    SelectFollowsTable(field, Empty);
  }

  /**
    A new number whose payload reads and decodes replaces the cache with that
    number and the decoded message, and the answer comes from the new message:
    from the payload for a tag it carries, from the previous event otherwise.
   */
  lemma NewEventReplacesCache(c: Cache, field: string, evt: Event, decode: Decoder)
    requires evt.num != c.lastNum && evt.payload.Read? && decode(evt.payload.data).Decoded?
    ensures var keys := decode(evt.payload.data).keys;
            var s := ExtractStep(c, field, evt, decode);
            && s.cache == Cache(evt.num, Overlay(c.lastMsg, keys))
            && (field in TagOf && TagOf[field] in keys ==> s.answer == Set(keys[TagOf[field]]))
            && (field in TagOf && TagOf[field] !in keys ==> s.answer == Answer(field, c.lastMsg))
            && (field !in TagOf ==> s.answer == Failed(NoKnownField(field)))
  {
    var keys := decode(evt.payload.data).keys;
    var msg := Overlay(c.lastMsg, keys);
    SelectFollowsTable(field, msg);
    SelectFollowsTable(field, c.lastMsg);
    if field in TagOf {
      assert TagOf[field] in Tags;
    }
  }

  /** A failed read or decode is an error with no value, and the cache keeps the previous event. */
  lemma FailureKeepsCache(c: Cache, field: string, evt: Event, decode: Decoder)
    requires evt.num != c.lastNum
    requires evt.payload.ReadFailed? || decode(evt.payload.data).Malformed?
    ensures ExtractStep(c, field, evt, decode).cache == c
    ensures ExtractStep(c, field, evt, decode).answer == Failed(if evt.payload.ReadFailed? then ReadError else DecodeError)
  {
  }

  /** An unknown name is an error even after a successful decode, which has still been stored. */
  lemma UnknownFieldStillCaches(c: Cache, field: string, evt: Event, decode: Decoder)
    requires !Declared(field)
    requires evt.payload.Read? && decode(evt.payload.data).Decoded?
    ensures ExtractStep(c, field, evt, decode).answer.Failed?
    ensures ExtractStep(c, field, evt, decode).cache.lastNum == evt.num
  {
    SelectFollowsTable(field, c.lastMsg);
    SelectFollowsTable(field, Overlay(c.lastMsg, decode(evt.payload.data).keys));
  }

  /**
    A failed read or decode is retried: the next request for the same number,
    for any field, runs exactly as if the failed request had never been made.
   */
  lemma FailedDecodeIsRetried(c: Cache, field: string, field': string, evt: Event, decode: Decoder)
    requires evt.num != c.lastNum
    requires evt.payload.ReadFailed? || decode(evt.payload.data).Malformed?
    ensures ExtractStep(ExtractStep(c, field, evt, decode).cache, field', evt, decode) == ExtractStep(c, field', evt, decode)
    ensures ExtractStep(ExtractStep(c, field, evt, decode).cache, field', evt, decode).answer.Failed?
  {
  }

  /** How many times a request for `evt` against cache `c` runs the decoder. */
  function DecodeCost(c: Cache, evt: Event): nat
  {
    if Decodes(c, evt) then 1 else 0
  }

  /** The answers, final cache and number of decoder runs of a series of requests. */
  datatype Trace = Trace(answers: seq<Outcome>, cache: Cache, decodes: nat)

  function Run(c: Cache, reqs: seq<Request>, decode: Decoder): (t: Trace)
    ensures |t.answers| == |reqs|
    decreases |reqs|
  {
    if reqs == [] then Trace([], c, 0)
    else
      var s := ExtractStep(c, reqs[0].field, reqs[0].evt, decode);
      var rest := Run(s.cache, reqs[1..], decode);
      Trace([s.answer] + rest.answers, rest.cache, rest.decodes + DecodeCost(c, reqs[0].evt))
  }

  /** Requests for the cached number never decode and all answer from the cached message. */
  lemma {:induction false} RunOnCachedEvent(c: Cache, reqs: seq<Request>, decode: Decoder)
    requires forall i :: 0 <= i < |reqs| ==> reqs[i].evt.num == c.lastNum
    ensures Run(c, reqs, decode).decodes == 0
    ensures Run(c, reqs, decode).cache == c
    ensures forall i :: 0 <= i < |reqs| ==> Run(c, reqs, decode).answers[i] == Answer(reqs[i].field, c.lastMsg)
  {
    if reqs != [] {
      RunOnCachedEvent(c, reqs[1..], decode);
      var t := Run(c, reqs, decode);
      var rest := Run(c, reqs[1..], decode);
      assert t.answers == [Answer(reqs[0].field, c.lastMsg)] + rest.answers;
      forall i | 1 <= i < |reqs|
        ensures t.answers[i] == Answer(reqs[i].field, c.lastMsg)
      {
        assert t.answers[i] == rest.answers[i - 1];
        assert reqs[1..][i - 1] == reqs[i];
      }
    }
  }

  /**
    Decode once: any number of field requests for one event, whose payload
    reads and decodes, run the decoder exactly once when that event is not
    cached, and not at all when it is.
   */
  lemma {:induction false} DecodeOnce(c: Cache, n: u64, reqs: seq<Request>, decode: Decoder)
    requires forall i :: 0 <= i < |reqs| ==> reqs[i].evt.num == n
    requires forall i :: 0 <= i < |reqs| ==> reqs[i].evt.payload.Read? && decode(reqs[i].evt.payload.data).Decoded?
    ensures Run(c, reqs, decode).decodes <= 1
    ensures c.lastNum == n ==> Run(c, reqs, decode).decodes == 0
    ensures c.lastNum != n && reqs != [] ==> Run(c, reqs, decode).decodes == 1
    ensures reqs != [] ==> Run(c, reqs, decode).cache.lastNum == n
  {
    if reqs != [] {
      var s := ExtractStep(c, reqs[0].field, reqs[0].evt, decode);
      assert s.cache.lastNum == n;
      RunOnCachedEvent(s.cache, reqs[1..], decode);
    }
  }

  /**
    The plugin's state for `Extract`. `DecodeCalls` counts the runs of the
    decoder; it is not part of the Go struct.
   */
  class Plugin {
    var lastLsmEventMessage: LsmMessage
    var lastLsmEventNum: u64
    ghost var DecodeCalls: nat

    function State(): Cache
      reads this
    {
      Cache(lastLsmEventNum, lastLsmEventMessage)
    }

    constructor ()
      ensures State() == Initial && DecodeCalls == 0
    {
      lastLsmEventMessage := Empty;
      lastLsmEventNum := 0;
      DecodeCalls := 0;
    }

    method Extract(field: string, evt: Event, decode: Decoder) returns (r: Outcome)
      modifies this
      ensures Step(r, State()) == ExtractStep(old(State()), field, evt, decode)
      ensures DecodeCalls == old(DecodeCalls) + DecodeCost(old(State()), evt)
    {
      var msg := lastLsmEventMessage;
      if evt.num != lastLsmEventNum {
        if evt.payload.ReadFailed? {
          return Failed(ReadError);
        }
        var decoded := decode(evt.payload.data);
        DecodeCalls := DecodeCalls + 1;
        if decoded.Malformed? {
          return Failed(DecodeError);
        }
        msg := Overlay(msg, decoded.keys);
        lastLsmEventMessage := msg;
        lastLsmEventNum := evt.num;
      }
      match field
      case "lsm.etype" => r := Set(msg.etype);
      case "lsm.hook" => r := Set(msg.securityHook);
      case "lsm.file.path" => r := Set(msg.path);
      case "lsm.file.device" => r := Set(msg.device);
      case "lsm.file.inode" => r := Set(msg.inode);
      case "lsm.user.uid" => r := Set(msg.username);
      case "lsm.user.gid" => r := Set(msg.group);
      case _ => r := Failed(NoKnownField(field));
    }
  }
}
