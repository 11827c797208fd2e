/** Execution records, their JSON text, and the row codec that packs long
    texts. Text is a sequence of UTF-8 bytes, one per character. */
module Codec {
  import opened Basics

  const PREFIX: string := "bro-zstd-v2:"
  const LEGACY_PREFIX: string := "bro-zstd-v1:"
  const RECORD_TAG: string := "{\"record\":"
  const EVENT_TAG: string := "{\"record\":\"thread_event\","
  const EVENT_OVERHEAD: nat := 34
  const PACK_FROM: nat := 4096
  const MAX_BYTES: nat := 4 * 1024 * 1024

  /** The public projection row; `body` stands for the fields the store never reads. */
  datatype Event = Event(threadId: string, seqNo: nat, body: string)

  datatype AcceptedKey = AcceptedKey(
    scope: string, key: string, fingerprint: string, threadId: string, turnId: Option<string>)

  datatype Record =
    | ThreadEvent(event: Event)
    | Accepted(entry: AcceptedKey)
    | Fact(tag: string, body: string)

  /** An entry of the discovery index as a reader reports it. */
  datatype Head = Head(format: nat, position: int, id: string, version: nat)

  /** The libraries below the store: JSON printing and parsing, the compressed
      envelope, the database's character count, and JSON sizes. */
  datatype Wire = Wire(
    json: Record -> string,
    parse: string -> Option<Record>,
    pack: string -> string,
    unpack: (bool, string) -> Option<string>,
    chars: string -> nat,
    eventSize: Event -> nat,
    headSize: Head -> nat,
    rootSize: string -> nat)

  /** What the store relies on those libraries for. */
  ghost predicate Lawful(w: Wire) {
    && (forall r :: w.parse(w.json(r)) == Some(r))
    && (forall r :: StartsWith(w.json(r), RECORD_TAG))
    && (forall r :: StartsWith(w.json(r), EVENT_TAG) <==> r.ThreadEvent?)
    && (forall e :: |w.json(ThreadEvent(e))| == w.eventSize(e) + EVENT_OVERHEAD)
    && (forall p :: PACK_FROM <= |p| <= MAX_BYTES ==> w.unpack(false, w.pack(p)) == Some(p))
  }

  function Encode(w: Wire, text: string): string {
    if |text| < PACK_FROM || |text| > MAX_BYTES || StartsWith(text, EVENT_TAG) then text
    else
      var packed := PREFIX + w.pack(text);
      if |packed| < |text| then packed else text
  }

  function Decode(w: Wire, payload: string): Result<string> {
    if !StartsWith(payload, PREFIX) && !StartsWith(payload, LEGACY_PREFIX) then Ok(payload)
    else if |payload| > MAX_BYTES then Err
    else match w.unpack(StartsWith(payload, LEGACY_PREFIX), payload[|PREFIX|..])
      case None => Err
      case Some(text) => Ok(text)
  }

  ghost predicate Unmarked(text: string) {
    !StartsWith(text, PREFIX) && !StartsWith(text, LEGACY_PREFIX)
  }

  /** A text of 4 KiB to 4 MiB that is no public event takes the envelope whenever
      that is shorter; every other text stays as it is. */
  lemma EncodeTakesTheShorter(w: Wire, text: string)
    ensures var envelope := "bro-zstd-v2:" + w.pack(text);
            Encode(w, text) ==
            if 4096 <= |text| <= 4194304 && !StartsWith(text, "{\"record\":\"thread_event\",") && |envelope| < |text|
            then envelope else text
  {
  }

  /** An envelope of either version up to 4 MiB is opened as its version; longer ones
      are refused, and a text under neither mark is itself. */
  lemma DecodeOpensEitherVersion(w: Wire, body: string)
    ensures var (current, retired) := ("bro-zstd-v2:" + body, "bro-zstd-v1:" + body);
            && (|body| > 4194292 ==> Decode(w, current) == Decode(w, retired) == Err)
            && (|body| <= 4194292 ==>
                  && Decode(w, current) == (match w.unpack(false, body) case None => Err case Some(text) => Ok(text))
                  && Decode(w, retired) == (match w.unpack(true, body) case None => Err case Some(text) => Ok(text)))
    ensures Unmarked(body) ==> Decode(w, body) == Ok(body)
  {
    var (current, retired) := ("bro-zstd-v2:" + body, "bro-zstd-v1:" + body);
    assert current[12..] == body && retired[12..] == body;
    assert current[10] == '2' && retired[10] == '1' && LEGACY_PREFIX[10] == '1' && PREFIX[10] == '2';
    assert StartsWith(current, PREFIX) && StartsWith(retired, LEGACY_PREFIX);
  }

  /** Packing loses nothing, never grows a row, leaves public events readable by
      their tag, and never produces the retired envelope. */
  lemma EncodeIsLossless(w: Wire, text: string)
    requires Lawful(w) && Unmarked(text)
    ensures Decode(w, Encode(w, text)) == Ok(text)
    ensures |Encode(w, text)| <= |text|
    ensures StartsWith(text, EVENT_TAG) ==> Encode(w, text) == text
    ensures !StartsWith(Encode(w, text), LEGACY_PREFIX)
  {
    var packed := PREFIX + w.pack(text);
    assert packed[|PREFIX|..] == w.pack(text);
    assert packed[10] == '2' && LEGACY_PREFIX[10] == '1';
  }

  /** Every record's JSON starts as an object, so the codec never mistakes it. */
  lemma JsonIsUnmarked(w: Wire, r: Record)
    requires Lawful(w)
    ensures Unmarked(w.json(r))
  {
    assert w.json(r)[0] == RECORD_TAG[0];
  }

  lemma RecordRoundTrip(w: Wire, r: Record)
    requires Lawful(w)
    ensures Decode(w, Encode(w, w.json(r))) == Ok(w.json(r))
    ensures w.parse(w.json(r)) == Some(r)
    ensures !StartsWith(Encode(w, w.json(r)), LEGACY_PREFIX)
    ensures StartsWith(Encode(w, w.json(r)), EVENT_TAG) <==> r.ThreadEvent?
  {
    JsonIsUnmarked(w, r);
    EncodeIsLossless(w, w.json(r));
    if Encode(w, w.json(r)) != w.json(r) {
      assert Encode(w, w.json(r))[0] == PREFIX[0] == 'b';
      assert EVENT_TAG[0] == '{';
    }
  }
}
