/** One iteration of the ingestion loop (`run_server`) as a pure transition, and
    the loop itself as a fold of that transition over the received payloads. */
module IngestionServer {
  import opened Values
  import opened TextSearch
  import opened FieldDecoder
  import opened LocationCell
  import opened AppendLog

  /** The acknowledgment sent back for every handled request. */
  const Ack: string := "OK"

  const LatitudeKey: string := "latitude"
  const LongitudeKey: string := "longitude"
  const AltitudeKey: string := "altitude"

  /** Everything one request can change: the shared cell and the log file's lines. */
  datatype Server = Server(cell: Location, log: seq<string>)

  /** The result of one iteration. `Replied`: the request was decoded, logged,
      published and acknowledged. `Aborted`: a conversion failed; the exception
      escapes the loop before the file write and the publish, so the state is
      the one before the request and no reply is sent. */
  datatype StepResult =
    | Replied(server: Server, reply: string)
    | Aborted(server: Server, error: DecodeError)

  /** Decodes the three fields in the source's order: latitude, longitude,
      altitude. The first failing conversion stops decoding. */
  function DecodeReading(payload: string, convert: Converter): (r: Result<Reading, DecodeError>)
    ensures r.Success? <==>
              && ParseField(payload, LatitudeKey, convert).Success?
              && ParseField(payload, LongitudeKey, convert).Success?
              && ParseField(payload, AltitudeKey, convert).Success?
    ensures r.Success? ==>
              && Success(r.value.latitude) == ParseField(payload, LatitudeKey, convert)
              && Success(r.value.longitude) == ParseField(payload, LongitudeKey, convert)
              && Success(r.value.altitude) == ParseField(payload, AltitudeKey, convert)
    ensures r.Failure? ==> r.error.key in {LatitudeKey, LongitudeKey, AltitudeKey}
    ensures r.Failure? ==> Failure(r.error) == ParseField(payload, r.error.key, convert)
    ensures r.Failure? && r.error.key != LatitudeKey ==> ParseField(payload, LatitudeKey, convert).Success?
    ensures r.Failure? && r.error.key == AltitudeKey ==> ParseField(payload, LongitudeKey, convert).Success?
  {
    var lat := ParseField(payload, LatitudeKey, convert);
    var lon := ParseField(payload, LongitudeKey, convert);
    var alt := ParseField(payload, AltitudeKey, convert);
    if lat.Failure? then Failure(lat.error)
    else if lon.Failure? then Failure(lon.error)
    else if alt.Failure? then Failure(alt.error)
    else Success(Reading(lat.value, lon.value, alt.value))
  }

  /** How a request's payload becomes a reading. The loop is stated for any
      decoder; the server's own is `Fields(convert)`. */
  type Decoder = string -> Result<Reading, DecodeError>

  /** The server's decoder: the three `parseField` calls. */
  function Fields(convert: Converter): Decoder {
    payload => DecodeReading(payload, convert)
  }

  /** One request: decode, append the raw payload to the log, publish the
      reading to the cell, reply "OK". */
  function Step(s: Server, payload: string, decode: Decoder): (r: StepResult)
    ensures r.Replied? <==> decode(payload).Success?
    ensures r.Replied? ==> r.reply == Ack
    ensures r.Replied? ==> r.server.log == s.log + [payload]
    ensures r.Replied? ==> r.server.cell == Publish(s.cell, decode(payload).value)
    ensures r.Aborted? ==> r.server == s && Failure(r.error) == decode(payload)
  {
    match decode(payload)
    case Failure(e) => Aborted(s, e)
    case Success(reading) =>
      Replied(Server(Publish(s.cell, reading), Append(s.log, payload)), Ack)
  }

  /** A handled request leaves the cell holding exactly the three `parseField`
      results of that payload, flag up, and adds payload and newline to the file. */
  lemma StepPublishesFields(s: Server, payload: string, convert: Converter)
    requires Step(s, payload, Fields(convert)).Replied?
    ensures var s' := Step(s, payload, Fields(convert)).server;
            && s'.cell.updated
            && Success(s'.cell.latitude) == ParseField(payload, LatitudeKey, convert)
            && Success(s'.cell.longitude) == ParseField(payload, LongitudeKey, convert)
            && Success(s'.cell.altitude) == ParseField(payload, AltitudeKey, convert)
            && FileText(s'.log) == FileText(s.log) + payload + Terminator
  {
    FileTextAppend(s.log, payload);
  }

  /** What the loop has done after a sequence of requests: the state, the
      replies sent in order, and the error that ended the loop, if any. */
  datatype Trace = Trace(server: Server, replies: seq<string>, abort: Option<DecodeError>)

  /** The loop fed `payloads` one at a time, each answered before the next is
      taken; it stops at the first request whose decoding fails. */
  function Run(s: Server, payloads: seq<string>, decode: Decoder): (t: Trace)
    decreases |payloads|
    ensures |t.replies| <= |payloads|
    ensures t.server.log == s.log + payloads[..|t.replies|]
    ensures forall i :: 0 <= i < |t.replies| ==> t.replies[i] == Ack
    ensures forall i :: 0 <= i < |t.replies| ==> decode(payloads[i]).Success?
    ensures t.abort.None? <==> |t.replies| == |payloads|
    ensures t.abort.Some? ==> decode(payloads[|t.replies|]) == Failure(t.abort.value)
    ensures |t.replies| == 0 ==> t.server.cell == s.cell
    ensures |t.replies| > 0 ==> t.server.cell == Publish(s.cell, decode(payloads[|t.replies| - 1]).value)
    ensures s.cell.updated ==> t.server.cell.updated
  {
    if payloads == [] then Trace(s, [], None)
    else
      var r := Step(s, payloads[0], decode);
      if r.Aborted? then Trace(s, [], Some(r.error))
      else
        var t := Run(r.server, payloads[1..], decode);
        var k := |t.replies|;
        assert payloads[..k + 1] == [payloads[0]] + payloads[1..][..k];
        assert forall i :: 0 < i <= k ==> payloads[i] == payloads[1..][i - 1];
        assert k < |payloads| - 1 ==> payloads[k + 1] == payloads[1..][k];
        Trace(t.server, [r.reply] + t.replies, t.abort)
  }

  /** When every payload decodes, the log gains exactly the payloads, in
      arrival order, and every request gets one "OK". */
  lemma RunAllDecoded(s: Server, payloads: seq<string>, decode: Decoder)
    requires forall i :: 0 <= i < |payloads| ==> decode(payloads[i]).Success?
    ensures Run(s, payloads, decode).server.log == s.log + payloads
    ensures Run(s, payloads, decode).replies == seq(|payloads|, _ => Ack)
    ensures Run(s, payloads, decode).abort == None
  {
    assert payloads[..|payloads|] == payloads;
  }

  /** The log file after a run is the old file followed by one line per handled payload. */
  lemma RunFileText(s: Server, payloads: seq<string>, decode: Decoder)
    ensures var t := Run(s, payloads, decode);
            FileText(t.server.log) == FileText(s.log) + FileText(payloads[..|t.replies|])
  {
    var t := Run(s, payloads, decode);
    FileTextConcat(s.log, payloads[..|t.replies|]);
  }

  /** From a fresh start the display's "no data yet" state lasts exactly until
      the first request is handled. */
  lemma FlagRaisedIffHandled(log: seq<string>, payloads: seq<string>, decode: Decoder)
    ensures var t := Run(Server(Initial, log), payloads, decode);
            t.server.cell.updated <==> |t.replies| > 0
  {
  }

  /** The cell operations a run performs: one publish per handled request, in arrival order. */
  function PublishesOf(payloads: seq<string>, decode: Decoder): seq<CellOp>
    decreases |payloads|
  {
    if payloads == [] then []
    else
      match decode(payloads[0])
      case Failure(_) => []
      case Success(reading) => [PublishOp(reading)] + PublishesOf(payloads[1..], decode)
  }

  /** The loop's effect on the cell is the cell's own replay of its publishes,
      one per handled request, in arrival order. */
  lemma {:induction false} RunPublishesInOrder(s: Server, payloads: seq<string>, decode: Decoder)
    ensures |PublishesOf(payloads, decode)| == |Run(s, payloads, decode).replies|
    ensures Run(s, payloads, decode).server.cell == Replay(s.cell, PublishesOf(payloads, decode)).0
    decreases |payloads|
  {
    if payloads != [] {
      var d := decode(payloads[0]);
      if d.Success? {
        var s1 := Step(s, payloads[0], decode).server;
        RunPublishesInOrder(s1, payloads[1..], decode);
        var rest := PublishesOf(payloads[1..], decode);
        assert ([PublishOp(d.value)] + rest)[1..] == rest;
      }
    }
  }

  /** Whatever way the display thread's snapshots interleave with the loop's
      publishes, the cell ends where the run leaves it. */
  lemma InterleavedRunCell(s: Server, payloads: seq<string>, decode: Decoder, ops: seq<CellOp>)
    requires PublishesIn(ops) == PublishesOf(payloads, decode)
    ensures Replay(s.cell, ops).0 == Run(s, payloads, decode).server.cell
  {
    SnapshotsLeaveCell(s.cell, ops);
    RunPublishesInOrder(s, payloads, decode);
  }

  /** The payload of the malformed-request scenario: only latitude is present. */
  const LatitudeOnly: string := "{\"latitude\":1.0}"

  /** Decoding `{"latitude":1.0}` converts the text `1.0}` for latitude and
      yields 0.0 for the absent longitude and altitude, without converting. */
  lemma LatitudeOnlyScenario(log: seq<string>, convert: Converter, v: Float32)
    requires convert("1.0}") == Some(v)
    ensures var r := Step(Server(Initial, log), LatitudeOnly, Fields(convert));
            && r.Replied? && r.reply == Ack
            && r.server.log == log + [LatitudeOnly]
            && Snapshot(r.server.cell) == (v, PositiveZero, PositiveZero, true)
  {
    var p := LatitudeOnly;
    assert IsFirstOccurrence(p, Needle(LatitudeKey), 1) by {
      assert Needle(LatitudeKey) == "\"latitude\":";
      assert p == "{" + Needle(LatitudeKey) + "1.0}";
    }
    assert p[12..] == "1.0}";
    forall i | 0 <= i <= |p|
      ensures !OccursAt(p, Needle(LongitudeKey), i) && !OccursAt(p, Needle(AltitudeKey), i)
    {
    }
    assert DecodeReading(p, convert) == Success(Reading(v, PositiveZero, PositiveZero));
  }
}
