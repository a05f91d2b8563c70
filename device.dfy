/**
 * The device agent of esp32-template.py: Wi-Fi attach with retry and
 * backoff, change detection between readings, sending, and one iteration of
 * the main loop. The radio, the clock, the sensor and the HTTP client are
 * replaced by the outcomes they produce, which the caller supplies.
 */
module Device {
  import opened Telemetry

  /** The producer id this device reports under. */
  const GROUP_ID: string := "group_1"
  /** connect_wifi's default timeout, in seconds. */
  const DEFAULT_TIMEOUT: int := 20
  /** ensure_wifi's number of connect attempts. */
  const MAX_ATTEMPTS: nat := 3
  /** has_significant_change's default threshold. */
  const DEFAULT_THRESHOLD: real := 0.5
  /** The pause after a normal loop iteration, in seconds. */
  const LOOP_DELAY: nat := 5
  /** The pause after an iteration that raised, in seconds. */
  const ERROR_DELAY: nat := 10

  // ---------------------------------------------------------------------------
  // has_significant_change
  // ---------------------------------------------------------------------------

  function Abs(x: real): real
  {
    if x < 0.0 then -x else x
  }

  /**
   * The field's key is also in `oldData`, and comparing the two values
   * raises TypeError: abs(number - string).
   */
  predicate Mismatch(f: Field, oldData: Reading)
  {
    match Lookup(oldData, f.key)
    case None => false
    case Some(ov) => f.value.Num? && ov.Str?
  }

  /**
   * The field's key is also in `oldData` and its value moved: a number by
   * strictly more than `threshold`, a string by being different.
   */
  predicate Moved(f: Field, oldData: Reading, threshold: real)
  {
    match Lookup(oldData, f.key)
    case None => false
    case Some(ov) =>
      match f.value
      case Num(n) => ov.Num? && Abs(n - ov.n) > threshold
      case Str(_) => f.value != ov
  }

  /**
   * The loop over the new reading's keys, in order, returning at the first
   * field that moved. None stands for the TypeError raised when a number
   * meets a string.
   */
  function ScanFields(fields: Reading, oldData: Reading, threshold: real): (r: Option<bool>)
    ensures r == Some(true) ==> exists i :: 0 <= i < |fields| && Moved(fields[i], oldData, threshold)
    ensures r.None? ==> exists i :: 0 <= i < |fields| && Mismatch(fields[i], oldData)
  {
    if fields == [] then Some(false)
    else
      var f := fields[0];
      match Lookup(oldData, f.key)
      case None => ScanFields(fields[1..], oldData, threshold)
      case Some(ov) =>
        if f.value.Num? then
          if ov.Str? then None
          else if Abs(f.value.n - ov.n) > threshold then Some(true)
          else ScanFields(fields[1..], oldData, threshold)
        else if f.value != ov then Some(true)
        else ScanFields(fields[1..], oldData, threshold)
  }

  /** has_significant_change: an absent or empty old reading always counts as a change. */
  function HasSignificantChange(newData: Reading, oldData: Option<Reading>, threshold: real): (r: Option<bool>)
    ensures oldData.None? || oldData.value == [] ==> r == Some(true)
  {
    if oldData.None? || oldData.value == [] then Some(true)
    else ScanFields(newData, oldData.value, threshold)
  }

  /**
   * When no field that could raise comes before the first field that moved,
   * the result is whether some field moved: only keys present in both
   * readings are compared, numbers strictly beyond the threshold, other
   * values on inequality; otherwise False.
   */
  lemma {:induction false} ScanFindsMovedField(fields: Reading, oldData: Reading, threshold: real)
    requires forall i :: 0 <= i < |fields| && Mismatch(fields[i], oldData) ==>
      exists j :: 0 <= j < i && Moved(fields[j], oldData, threshold)
    ensures ScanFields(fields, oldData, threshold)
         == Some(exists i :: 0 <= i < |fields| && Moved(fields[i], oldData, threshold))
  {
    if fields != [] {
      assert !Mismatch(fields[0], oldData);
      if !Moved(fields[0], oldData, threshold) {
        forall i | 0 <= i < |fields[1..]| && Mismatch(fields[1..][i], oldData)
          ensures exists j :: 0 <= j < i && Moved(fields[1..][j], oldData, threshold)
        {
          assert Mismatch(fields[i + 1], oldData);
          var j :| 0 <= j < i + 1 && Moved(fields[j], oldData, threshold);
          assert Moved(fields[1..][j - 1], oldData, threshold);
        }
        ScanFindsMovedField(fields[1..], oldData, threshold);
        if exists i :: 0 <= i < |fields[1..]| && Moved(fields[1..][i], oldData, threshold) {
          var i :| 0 <= i < |fields[1..]| && Moved(fields[1..][i], oldData, threshold);
          assert Moved(fields[i + 1], oldData, threshold);
        }
        if exists i :: 0 <= i < |fields| && Moved(fields[i], oldData, threshold) {
          var i :| 0 <= i < |fields| && Moved(fields[i], oldData, threshold);
          assert Moved(fields[1..][i - 1], oldData, threshold);
        }
      }
    }
  }

  /**
   * The comparison raises only at a number meeting a string, and only when
   * no earlier field moved.
   */
  lemma {:induction false} ScanRaisesOnlyOnMismatch(fields: Reading, oldData: Reading, threshold: real)
    requires ScanFields(fields, oldData, threshold).None?
    ensures exists i :: 0 <= i < |fields| && Mismatch(fields[i], oldData)
                     && (forall j :: 0 <= j < i ==> !Moved(fields[j], oldData, threshold))
  {
    if !Mismatch(fields[0], oldData) {
      ScanRaisesOnlyOnMismatch(fields[1..], oldData, threshold);
      var i :| 0 <= i < |fields[1..]| && Mismatch(fields[1..][i], oldData)
        && forall j :: 0 <= j < i ==> !Moved(fields[1..][j], oldData, threshold);
      assert Mismatch(fields[i + 1], oldData);
      forall j | 0 <= j < i + 1
        ensures !Moved(fields[j], oldData, threshold)
      {
        if j > 0 {
          assert fields[j] == fields[1..][j - 1];
        }
      }
    } else {
      assert Mismatch(fields[0], oldData);
    }
  }

  /**
   * The converse: a number meeting a string under a shared key raises when
   * no earlier field moved, whatever follows it.
   */
  lemma {:induction false} ScanRaisesAtUnprecededMismatch(fields: Reading, oldData: Reading, threshold: real, i: nat)
    requires i < |fields| && Mismatch(fields[i], oldData)
    requires forall j :: 0 <= j < i ==> !Moved(fields[j], oldData, threshold)
    ensures ScanFields(fields, oldData, threshold) == None
  {
    if i > 0 {
      assert !Moved(fields[0], oldData, threshold);
      forall j | 0 <= j < i - 1
        ensures !Moved(fields[1..][j], oldData, threshold)
      {
        assert fields[1..][j] == fields[j + 1];
      }
      assert fields[1..][i - 1] == fields[i];
      ScanRaisesAtUnprecededMismatch(fields[1..], oldData, threshold, i - 1);
    }
  }

  /** A key that only the new reading has never counts, wherever it stands. */
  lemma {:induction false} NewOnlyKeyIgnored(fields: Reading, k: nat, f: Field, oldData: Reading, threshold: real)
    requires k <= |fields|
    requires !HasKey(oldData, f.key)
    ensures ScanFields(fields[..k] + [f] + fields[k..], oldData, threshold) == ScanFields(fields, oldData, threshold)
  {
    var longer := fields[..k] + [f] + fields[k..];
    if k == 0 {
      assert longer == [f] + fields;
      assert longer[1..] == fields;
    } else {
      NewOnlyKeyIgnored(fields[1..], k - 1, f, oldData, threshold);
      assert longer[0] == fields[0];
      assert longer[1..] == fields[1..][..k - 1] + [f] + fields[1..][k - 1..];
    }
  }

  /** The scan only looks old values up under the new reading's keys. */
  lemma {:induction false} ScanDependsOnLookups(fields: Reading, o1: Reading, o2: Reading, threshold: real)
    requires forall i :: 0 <= i < |fields| ==> Lookup(o1, fields[i].key) == Lookup(o2, fields[i].key)
    ensures ScanFields(fields, o1, threshold) == ScanFields(fields, o2, threshold)
  {
    if fields != [] {
      assert Lookup(o1, fields[0].key) == Lookup(o2, fields[0].key);
      ScanDependsOnLookups(fields[1..], o1, o2, threshold);
    }
  }

  /** Appending entries under other keys does not change what a key maps to. */
  lemma {:induction false} LookupAppend(r: Reading, extra: Reading, key: string)
    requires !HasKey(extra, key)
    ensures Lookup(r + extra, key) == Lookup(r, key)
  {
    if r == [] {
      assert r + extra == extra;
    } else {
      assert (r + extra)[1..] == r[1..] + extra;
      LookupAppend(r[1..], extra, key);
    }
  }

  /**
   * Keys that only the old reading has never count: extending a non-empty
   * old reading by such keys leaves the verdict unchanged.
   */
  lemma OldOnlyKeysIgnored(newData: Reading, oldData: Reading, extra: Reading, threshold: real)
    requires oldData != []
    requires forall i, j :: 0 <= i < |newData| && 0 <= j < |extra| ==> extra[j].key != newData[i].key
    ensures HasSignificantChange(newData, Some(oldData + extra), threshold)
         == HasSignificantChange(newData, Some(oldData), threshold)
  {
    forall i | 0 <= i < |newData|
      ensures Lookup(oldData + extra, newData[i].key) == Lookup(oldData, newData[i].key)
    {
      LookupAppend(oldData, extra, newData[i].key);
    }
    ScanDependsOnLookups(newData, oldData + extra, oldData, threshold);
  }

  // ---------------------------------------------------------------------------
  // connect_wifi and ensure_wifi
  // ---------------------------------------------------------------------------

  /**
   * What the radio does during one connect_wifi call: whether it is already
   * connected when asked first; otherwise after how many one-second polls
   * it reports connected (None: never); and what the caller's own
   * isconnected() check reports once the call has returned the interface.
   */
  datatype LinkEnv = LinkEnv(alreadyUp: bool, upAfter: Option<nat>, stillUp: bool)

  /**
   * The number of one-second polls connect_wifi makes before it gives up:
   * it stops at the first check where more than `timeout` seconds have
   * passed, the clock advancing one second per poll.
   */
  function PollBudget(timeout: int): nat
  {
    if timeout < 0 then 0 else timeout + 1
  }

  /** connect_wifi returns the interface rather than None. */
  predicate ConnectsWithin(env: LinkEnv, timeout: int)
  {
    env.alreadyUp || (env.upAfter.Some? && env.upAfter.value <= PollBudget(timeout))
  }

  /**
   * connect_wifi: returns at once when already connected; otherwise polls
   * once a second until connected or until more than `timeout` seconds have
   * passed. `waited` is the number of seconds slept.
   */
  method ConnectWifi(env: LinkEnv, timeout: int) returns (linked: bool, waited: nat)
    ensures linked == ConnectsWithin(env, timeout)
    ensures env.alreadyUp ==> waited == 0
    ensures !env.alreadyUp && linked ==> waited == env.upAfter.value
    ensures !env.alreadyUp && !linked ==> waited == PollBudget(timeout)
  {
    if env.alreadyUp {
      return true, 0;
    }
    waited := 0;
    while !(env.upAfter.Some? && env.upAfter.value <= waited)
      invariant waited <= PollBudget(timeout)
      invariant env.upAfter.Some? ==> waited <= env.upAfter.value
      decreases PollBudget(timeout) - waited
    {
      if waited > timeout {
        return false, waited;
      }
      waited := waited + 1;
    }
    linked := true;
  }

  /** The outcome the radio gives attempt `k`; attempts beyond those supplied find no network. */
  function EnvAt(envs: seq<LinkEnv>, k: nat): LinkEnv
  {
    if k < |envs| then envs[k] else LinkEnv(false, None, false)
  }

  /** An attempt of ensure_wifi succeeds: `wlan and wlan.isconnected()`. */
  predicate AttemptSucceeds(env: LinkEnv)
  {
    ConnectsWithin(env, DEFAULT_TIMEOUT) && env.stillUp
  }

  /** One of ensure_wifi's attempts succeeds. */
  predicate Reconnects(envs: seq<LinkEnv>)
  {
    exists k :: 0 <= k < MAX_ATTEMPTS && AttemptSucceeds(EnvAt(envs, k))
  }

  function Pow2(k: nat): (r: nat)
    ensures r >= 1
  {
    if k == 0 then 1 else 2 * Pow2(k - 1)
  }

  /** The waits after the first `n` failed attempts: 1, 2, 4, ... seconds. */
  function Backoff(n: nat): (r: seq<nat>)
  {
    seq(n, k requires 0 <= k => Pow2(k))
  }

  function Sum(s: seq<nat>): nat
  {
    if s == [] then 0 else s[0] + Sum(s[1..])
  }

  /**
   * ensure_wifi: up to three connect attempts; the first success is
   * returned at once; after failed attempt k it waits 2^k seconds, also
   * after the last one. `waits` are those backoff sleeps.
   */
  method EnsureWifi(envs: seq<LinkEnv>) returns (linked: bool, attempts: nat, waits: seq<nat>)
    ensures linked == Reconnects(envs)
    ensures 1 <= attempts <= MAX_ATTEMPTS
    ensures linked ==> AttemptSucceeds(EnvAt(envs, attempts - 1))
    ensures forall k :: 0 <= k < attempts - 1 ==> !AttemptSucceeds(EnvAt(envs, k))
    ensures !linked ==> attempts == MAX_ATTEMPTS
    ensures waits == Backoff(if linked then attempts - 1 else attempts)
  {
    attempts, waits := 0, [];
    while attempts < MAX_ATTEMPTS
      invariant attempts <= MAX_ATTEMPTS
      invariant forall k :: 0 <= k < attempts ==> !AttemptSucceeds(EnvAt(envs, k))
      invariant waits == Backoff(attempts)
    {
      var env := EnvAt(envs, attempts);
      var up, polled := ConnectWifi(env, DEFAULT_TIMEOUT);
      if up && env.stillUp {
        linked, attempts := true, attempts + 1;
        return;
      }
      waits := waits + [Pow2(attempts)];
      attempts := attempts + 1;
    }
    linked := false;
  }

  /** When all three attempts fail the agent has slept 1, 2 and 4 seconds: 7 in all. */
  lemma FullFailureBacksOffSevenSeconds()
    ensures Backoff(MAX_ATTEMPTS) == [1, 2, 4]
    ensures Sum(Backoff(MAX_ATTEMPTS)) == 7
  {
    var b := Backoff(MAX_ATTEMPTS);
    assert b[0] == 1 && b[1] == 2 && b[2] == 4;
    assert b == [1, 2, 4];
    assert Sum([4]) == 4 + Sum([]);
    assert Sum([2, 4]) == 2 + Sum([4]) by { assert [2, 4][1..] == [4]; }
    assert Sum([1, 2, 4]) == 1 + Sum([2, 4]) by { assert [1, 2, 4][1..] == [2, 4]; }
  }

  // ---------------------------------------------------------------------------
  // send_to_server and main_loop
  // ---------------------------------------------------------------------------

  /** What urequests.post gives back: an HTTP status, or an exception. */
  datatype PostOutcome = Status(code: int) | PostRaised

  /** The JSON object send_to_server posts. */
  function DeviceEnvelope(reading: Reading, now: real): (e: Envelope)
    ensures e.groupId == Some(GROUP_ID) && e.sensorData == Some(reading)
    ensures e.timestamp == Some(now)
  {
    Envelope(Some(GROUP_ID), Some(now), Some(reading), Some("esp32"))
  }

  /** The LED after a post: on exactly for status 200. */
  function LedAfterPost(outcome: PostOutcome): (level: int)
    ensures level == 0 || level == 1
    ensures level == 1 <==> outcome == Status(200)
  {
    if outcome == Status(200) then 1 else 0
  }

  /**
   * What one loop iteration observes: isconnected() at the link check, the
   * radio's behaviour during a reconnect, the sensor read (None: it raised),
   * isconnected() before sending, the post's outcome and time.time().
   */
  datatype Tick = Tick(
    upAtCheck: bool,
    reconnect: seq<LinkEnv>,
    reading: Option<Reading>,
    upAtSend: bool,
    post: PostOutcome,
    now: real)

  /**
   * Step 3's decision on a reading: Some(true) to log it and keep it as
   * the last reading, Some(false) to skip, None when the comparison raised.
   */
  function ChangeCheck(reading: Reading, last: Option<Reading>): (r: Option<bool>)
    ensures last.None? ==> r == Some(true)
    ensures r.None? ==> last.Some? && exists i :: 0 <= i < |reading| && Mismatch(reading[i], last.value)
  {
    if last.None? then Some(true) else HasSignificantChange(reading, last, DEFAULT_THRESHOLD)
  }

  /** The iteration ends in the loop's exception handler. */
  predicate StepRaises(t: Tick, last: Option<Reading>)
  {
    t.reading.None? || ChangeCheck(t.reading.value, last).None?
  }

  /** The agent's state across loop iterations. */
  class Agent {
    /** A Wi-Fi interface is held: ensure_wifi last returned it rather than None. */
    var wlan: bool
    /** The last reading that was logged (None before the first). */
    var lastReading: Option<Reading>
    /** The status LED's pin value. */
    var led: int

    ghost predicate Valid()
      reads this
    {
      led == 0 || led == 1
    }

    /**
     * The start of main_loop: one ensure_wifi and no reading yet. The LED
     * keeps whatever level the pin had; main_loop does not set it.
     */
    constructor Start(envs: seq<LinkEnv>, initialLed: int)
      requires initialLed == 0 || initialLed == 1
      ensures Valid()
      ensures wlan == Reconnects(envs) && lastReading == None && led == initialLed
    {
      var linked, attempts, waits := EnsureWifi(envs);
      wlan := linked;
      lastReading := None;
      led := initialLed;
    }

    /** send_to_server: posts the reading and sets the LED from the outcome. */
    method SendToServer(reading: Reading, now: real, outcome: PostOutcome) returns (posted: Envelope)
      modifies this`led
      ensures posted == DeviceEnvelope(reading, now)
      ensures led == LedAfterPost(outcome)
    {
      posted := DeviceEnvelope(reading, now);
      if outcome == Status(200) {
        led := 1;
      } else {
        led := 0;
      }
    }

    /**
     * One iteration of main_loop. Returns the pause that ends it, the
     * envelope sent (None when nothing was sent) and the number of connect
     * attempts a reconnect made (0 when none was needed).
     */
    method Step(t: Tick) returns (delay: nat, posted: Option<Envelope>, attempts: nat)
      requires Valid()
      modifies this
      ensures Valid()
      ensures attempts > 0 <==> !old(wlan) || !t.upAtCheck
      ensures wlan == (if attempts > 0 then Reconnects(t.reconnect) else old(wlan))
      ensures StepRaises(t, old(lastReading)) ==>
        && delay == ERROR_DELAY && posted == None && led == 0
        && lastReading == old(lastReading)
      ensures !StepRaises(t, old(lastReading)) ==>
        var reading := t.reading.value;
        && delay == LOOP_DELAY
        && lastReading == (if ChangeCheck(reading, old(lastReading)) == Some(true) then Some(reading)
                           else old(lastReading))
        && (posted.Some? <==> wlan && t.upAtSend)
        && (posted.Some? ==> posted.value == DeviceEnvelope(reading, t.now) && led == LedAfterPost(t.post))
        && (posted.None? ==> led == old(led))
    {
      attempts := 0;
      // Step 1: reconnect when the interface is missing or down.
      if !wlan || !t.upAtCheck {
        var waits;
        wlan, attempts, waits := EnsureWifi(t.reconnect);
      }
      // Step 2: read the sensor.
      if t.reading.None? {
        led := 0;
        return ERROR_DELAY, None, attempts;
      }
      var reading := t.reading.value;
      // Step 3: keep the reading when it is the first or it changed.
      var change := ChangeCheck(reading, lastReading);
      if change.None? {
        led := 0;
        return ERROR_DELAY, None, attempts;
      }
      if change.value {
        lastReading := Some(reading);
      }
      // Step 4: send when online.
      posted := None;
      if wlan && t.upAtSend {
        var envelope := SendToServer(reading, t.now, t.post);
        posted := Some(envelope);
      }
      // Step 5: the regular pause.
      delay := LOOP_DELAY;
    }
  }
}
