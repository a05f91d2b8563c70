/**
 * The HTTP endpoints of app.py, with the VALID_GROUPS setting of config.py.
 * A request is the parsed JSON body; a response is a status code and the
 * JSON object returned with it.
 */
module Server {
  import opened Telemetry
  import opened Database

  /** The producers the server accepts readings from. */
  const VALID_GROUPS: seq<string> := ["group_1", "group_2", "group_3", "group_4", "group_5", "group_6"]

  /** The JSON object of a response. */
  datatype Reply =
    | Failure(error: string)
    | Received(status: string, message: string)
    | Snapshot(status: string, data: seq<Record>)
    | GroupHistory(status: string, groupId: string, data: seq<Record>)

  datatype Response = Response(code: int, reply: Reply)

  /** Why an ingestion request is refused. */
  datatype Rejection = MissingFields | InvalidGroup

  /** A reading the endpoint has accepted and will save. */
  datatype Ingest = Ingest(groupId: string, timestamp: real, sensorData: Reading)

  /** The body is absent, or lacks group_id or sensor_data. */
  predicate MissingRequired(data: Option<Envelope>)
  {
    data.None? || data.value.groupId.None? || data.value.sensorData.None?
  }

  /**
   * The validation chain of receive_esp32_data: required fields first, then
   * group membership. An absent timestamp becomes the server's `now`.
   */
  function ValidateEnvelope(data: Option<Envelope>, now: real): (r: Result<Ingest, Rejection>)
    ensures r.Ok? ==> r.value.groupId in VALID_GROUPS
    ensures r.Ok? <==> !MissingRequired(data) && data.value.groupId.value in VALID_GROUPS
    ensures r.Ok? ==> data == Some(Envelope(Some(r.value.groupId), data.value.timestamp,
                                            Some(r.value.sensorData), data.value.deviceType))
    ensures r.Err? ==> (r.error == MissingFields <==> MissingRequired(data))
  {
    if MissingRequired(data) then Err(MissingFields)
    else
      var envelope := data.value;
      var timestamp := if envelope.timestamp.Some? then envelope.timestamp.value else now;
      if envelope.groupId.value !in VALID_GROUPS then Err(InvalidGroup)
      else Ok(Ingest(envelope.groupId.value, timestamp, envelope.sensorData.value))
  }

  /** The error text of each rejection. */
  function RejectionMessage(why: Rejection): (m: string)
    ensures m == "Missing required fields" <==> why == MissingFields
    ensures m == "Invalid group ID" <==> why == InvalidGroup
  {
    match why
    case MissingFields => "Missing required fields"
    case InvalidGroup => "Invalid group ID"
  }

  /**
   * POST /api/data. `storageFails` stands for an exception raised while the
   * row is written (before it is committed).
   */
  method ReceiveEsp32Data(table: SensorTable, data: Option<Envelope>, now: real, storageFails: bool)
    returns (resp: Response)
    requires table.Valid()
    modifies table
    ensures table.Valid()
    ensures ValidateEnvelope(data, now).Err? ==>
      resp == Response(400, Failure(RejectionMessage(ValidateEnvelope(data, now).error)))
    ensures ValidateEnvelope(data, now).Ok? && storageFails ==>
      resp == Response(500, Failure("Internal server error"))
    ensures resp.code != 200 ==> table.rows == old(table.rows) && table.lastId == old(table.lastId)
    ensures resp.code == 200 <==> ValidateEnvelope(data, now).Ok? && !storageFails
    ensures resp.code == 200 ==>
      var v := ValidateEnvelope(data, now).value;
      && resp.reply == Received("success", "Data received from " + v.groupId)
      && table.lastId == old(table.lastId) + 1
      && table.rows == old(table.rows) + [Row(table.lastId, v.groupId, v.timestamp, v.sensorData)]
  {
    var checked := ValidateEnvelope(data, now);
    if checked.Err? {
      return Response(400, Failure(RejectionMessage(checked.error)));
    }
    var v := checked.value;
    if storageFails {
      return Response(500, Failure("Internal server error"));
    }
    table.SaveSensorData(v.groupId, v.timestamp, v.sensorData);
    resp := Response(200, Received("success", "Data received from " + v.groupId));
  }

  /**
   * GET /api/dashboard. `fault` is the text of an exception the query
   * raised, if it raised one.
   */
  function GetDashboardData(table: SensorTable, fault: Option<string>): (resp: Response)
    reads table
    ensures resp.code == 200 <==> fault.None?
    ensures fault.Some? ==> resp == Response(500, Failure(fault.value))
    ensures fault.None? ==>
      && resp.reply.Snapshot? && resp.reply.status == "success"
      && resp.reply.data == table.GetLatestDataAllGroups()
  {
    if fault.Some? then Response(500, Failure(fault.value))
    else Response(200, Snapshot("success", table.GetLatestDataAllGroups()))
  }

  /**
   * GET /api/group/<group_id>: the group's history with the default limit,
   * for any group id, valid or not.
   */
  function GetGroupData(table: SensorTable, groupId: string, fault: Option<string>): (resp: Response)
    reads table
    ensures resp.code == 200 <==> fault.None?
    ensures fault.Some? ==> resp == Response(500, Failure(fault.value))
    ensures fault.None? ==>
      && resp.reply.GroupHistory? && resp.reply.status == "success"
      && resp.reply.groupId == groupId
      && resp.reply.data == table.GetGroupHistory(groupId, DEFAULT_HISTORY_LIMIT)
  {
    if fault.Some? then Response(500, Failure(fault.value))
    else Response(200, GroupHistory("success", groupId, table.GetGroupHistory(groupId, DEFAULT_HISTORY_LIMIT)))
  }

  // ---------------------------------------------------------------------------
  // Properties of the endpoints.
  // ---------------------------------------------------------------------------

  /**
   * The missing-field check runs first: a body without sensor_data is
   * refused for missing fields whatever its group id.
   */
  lemma MissingFieldsReportedBeforeGroup(data: Option<Envelope>, now: real)
    requires data.Some? && data.value.sensorData.None?
    ensures ValidateEnvelope(data, now) == Err(MissingFields)
  {
  }

  /** A complete body whose group is not configured is refused as an invalid group. */
  lemma UnknownGroupRejected(data: Option<Envelope>, now: real)
    requires !MissingRequired(data) && data.value.groupId.value !in VALID_GROUPS
    ensures ValidateEnvelope(data, now) == Err(InvalidGroup)
  {
  }

  /**
   * An accepted body keeps its timestamp as sent, unchecked; an absent one
   * becomes the server's current time.
   */
  lemma TimestampDefaultsToServerTime(data: Option<Envelope>, now: real)
    requires ValidateEnvelope(data, now).Ok?
    ensures data.value.timestamp.Some? ==>
      ValidateEnvelope(data, now).value.timestamp == data.value.timestamp.value
    ensures data.value.timestamp.None? ==> ValidateEnvelope(data, now).value.timestamp == now
  {
  }

  /**
   * The group endpoint performs no membership check: any id without rows,
   * configured in VALID_GROUPS or not, gets 200 with an empty history.
   */
  lemma GroupDataForUnknownGroupIsEmpty(table: SensorTable, groupId: string)
    requires forall i :: 0 <= i < |table.rows| ==> table.rows[i].groupId != groupId
    ensures GetGroupData(table, groupId, None) == Response(200, GroupHistory("success", groupId, []))
  {
    HistoryOfUnknownGroup(table.rows, groupId, DEFAULT_HISTORY_LIMIT);
  }
}
