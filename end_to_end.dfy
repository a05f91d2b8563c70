/**
 * The device agent and the server together: what the agent posts is what
 * the ingestion endpoint accepts, and once saved it is what the read
 * endpoints serve.
 */
module EndToEnd {
  import opened Telemetry
  import opened Database
  import opened Server
  import opened Device

  /**
   * The envelope the agent posts passes validation unchanged: its group is
   * configured, and its own timestamp is kept rather than the server's.
   */
  lemma DeviceEnvelopeAccepted(reading: Reading, now: real, serverNow: real)
    ensures ValidateEnvelope(Some(DeviceEnvelope(reading, now)), serverNow) == Ok(Ingest(GROUP_ID, now, reading))
  {
    assert GROUP_ID == VALID_GROUPS[0];
  }

  /**
   * A reading the agent posts and the store saves under the next id shows
   * up in the agent's group history and in the dashboard snapshot.
   */
  lemma PostedReadingIsServed(rows: seq<Row>, reading: Reading, now: real, serverNow: real, id: int)
    ensures var v := ValidateEnvelope(Some(DeviceEnvelope(reading, now)), serverNow).value;
      var rows' := rows + [Row(id, v.groupId, v.timestamp, v.sensorData)];
      && HistoryRows(rows', GROUP_ID, DEFAULT_HISTORY_LIMIT) != []
      && exists y :: y in LatestRows(rows') && y.groupId == GROUP_ID
  {
    DeviceEnvelopeAccepted(reading, now, serverNow);
    SavedRowIsVisible(rows, Row(id, GROUP_ID, now, reading), DEFAULT_HISTORY_LIMIT);
  }
}
