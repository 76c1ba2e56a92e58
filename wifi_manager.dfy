/** Connectivity (src/wifi_manager.c): the `wifi_connected` flag the event
    handler keeps, the station connect from stored credentials with its wait
    of 10 one-second polls, the scan that tries open networks in scan order
    with 5 polls each, and the fixed access-point configuration.

    The radio is an oracle. Its events arrive in batches: one batch is
    delivered before every read of the flag in a wait loop (the handler runs
    on another task; a batch stands for whatever it handled in between).
    The driver requests the firmware makes (`esp_wifi_set_mode`,
    `esp_wifi_set_config`, `esp_wifi_connect`, ...) are recorded in order,
    and the time spent in `vTaskDelay` is counted in milliseconds. */
module WifiManager {
  import opened CLib
  import opened Settings

  /** Polls of the station wait in `connect_to_wifi`. */
  const STA_POLLS: nat := 10
  /** Polls of the wait for each open network. */
  const OPEN_POLLS: nat := 5
  /** `vTaskDelay(pdMS_TO_TICKS(1000))` between polls. */
  const POLL_DELAY_MS: nat := 1000
  /** `wifi_ap_record_t ap_records[20]`. */
  const MAX_AP_RECORDS: nat := 20
  /** `char ssid[32]` and `char password[64]` in `connect_to_wifi`. */
  const CRED_SSID_SIZE: nat := 32
  const CRED_PASSWORD_SIZE: nat := 64

  datatype WifiEvent =
    | StaStart
    | StaConnected
    | StaDisconnected
    | ApStaConnected
    | ApStaDisconnected
    | OtherWifiEvent   // any other id of WIFI_EVENT
    | OtherBaseEvent   // an event whose base is not WIFI_EVENT

  datatype AuthMode = Open | Wep | WpaPsk | Wpa2Psk | OtherAuth

  datatype WifiMode = StationMode | AccessPointMode

  /** The station part of `wifi_config_t` the firmware fills in. */
  datatype StaConfig = StaConfig(ssid: string, password: string, threshold: AuthMode)

  /** The access-point part of `wifi_config_t`. */
  datatype ApConfig = ApConfig(ssid: string, ssidLen: nat, channel: nat, password: string, maxConnection: nat, authmode: AuthMode)

  /** The requests made of the Wi-Fi driver. */
  datatype DriverCall =
    | SetMode(mode: WifiMode)
    | Start
    | SetStaConfig(sta: StaConfig)
    | SetApConfig(ap: ApConfig)
    | Connect
    | ScanStart
    | CreateApInterface

  /** One `wifi_ap_record_t` of a scan: the C string of `ssid` and `authmode`. */
  datatype ApRecord = ApRecord(ssid: string, authmode: AuthMode)

  /** The flag, the batches still to arrive, the driver requests made so far
      and the time spent waiting. */
  datatype Radio = Radio(connected: bool, pending: seq<seq<WifiEvent>>, calls: seq<DriverCall>, elapsedMs: nat)

  /** What a connect attempt returns and the radio it leaves. */
  datatype Outcome = Outcome(ok: bool, radio: Radio)

  // ---------------------------------------------------------------------
  // The event handler

  /** `wifi_event_handler` on the flag. */
  function OnEvent(connected: bool, e: WifiEvent): bool {
    match e
    case StaConnected => true
    case StaDisconnected => false
    case _ => connected
  }

  /** What the handler asks of the driver: a connect on STA_START. */
  function Reaction(e: WifiEvent): seq<DriverCall> {
    if e == StaStart then [Connect] else []
  }

  function FoldEvents(connected: bool, batch: seq<WifiEvent>): bool
    decreases |batch|
  {
    if batch == [] then connected else OnEvent(FoldEvents(connected, batch[..|batch| - 1]), batch[|batch| - 1])
  }

  /** The requests a batch makes: one connect per STA_START. */
  function Reactions(batch: seq<WifiEvent>): (r: seq<DriverCall>)
    ensures |r| == multiset(batch)[StaStart]
    ensures forall i :: 0 <= i < |r| ==> r[i] == Connect
    decreases |batch|
  {
    if batch == [] then []
    else
      assert batch == batch[..|batch| - 1] + [batch[|batch| - 1]];
      Reactions(batch[..|batch| - 1]) + Reaction(batch[|batch| - 1])
  }

  /** Handling one more event of a batch extends the fold by that event. */
  lemma HandlerStep(connected: bool, batch: seq<WifiEvent>, k: nat)
    requires k < |batch|
    ensures FoldEvents(connected, batch[..k + 1]) == OnEvent(FoldEvents(connected, batch[..k]), batch[k])
    ensures Reactions(batch[..k + 1]) == Reactions(batch[..k]) + Reaction(batch[k])
  {
    assert batch[..k + 1][..k] == batch[..k];
  }

  predicate IsLinkEvent(e: WifiEvent) { e == StaConnected || e == StaDisconnected }

  /** The last STA_CONNECTED or STA_DISCONNECTED of a batch. */
  function LastLinkEvent(batch: seq<WifiEvent>): (r: Option<WifiEvent>)
    ensures r.Some? ==>
      IsLinkEvent(r.value)
      && exists i :: 0 <= i < |batch| && batch[i] == r.value && forall j :: i < j < |batch| ==> !IsLinkEvent(batch[j])
    ensures r.None? ==> forall e :: e in batch ==> !IsLinkEvent(e)
    decreases |batch|
  {
    if batch == [] then None
    else if IsLinkEvent(batch[|batch| - 1]) then Some(batch[|batch| - 1])
    else
      var init := batch[..|batch| - 1];
      assert batch == init + [batch[|batch| - 1]];
      assert forall j :: 0 <= j < |init| ==> init[j] == batch[j];
      LastLinkEvent(init)
  }

  /** After a batch the flag is what its last link event says, and what it
      was when the batch has none. */
  lemma {:induction false} FoldEventsLastLink(connected: bool, batch: seq<WifiEvent>)
    ensures FoldEvents(connected, batch) ==
      match LastLinkEvent(batch)
      case None => connected
      case Some(e) => e == StaConnected
    decreases |batch|
  {
    if batch != [] && !IsLinkEvent(batch[|batch| - 1]) {
      FoldEventsLastLink(connected, batch[..|batch| - 1]);
    }
  }

  // ---------------------------------------------------------------------
  // Waiting for the link

  /** Delivery of the next batch, if any. */
  function Delivered(r: Radio): Radio {
    if r.pending == [] then r
    else r.(connected := FoldEvents(r.connected, r.pending[0]), pending := r.pending[1..],
            calls := r.calls + Reactions(r.pending[0]))
  }

  function Paused(r: Radio): Radio {
    r.(elapsedMs := r.elapsedMs + POLL_DELAY_MS)
  }

  /** The loop `while (!wifi_connected && retry < n) { delay; retry++; }`
      with `n` polls left. */
  function PollLoop(r: Radio, n: nat): Radio
    decreases n
  {
    if !r.connected && n > 0 then PollLoop(Delivered(Paused(r)), n - 1) else r
  }

  /** The wait after a connect request: a delivery, then the polls. */
  function WaitSpec(r: Radio, polls: nat): Radio {
    PollLoop(Delivered(r), polls)
  }

  /** The flag after the first `k` batches (fewer when fewer remain). */
  function FlagAfter(connected: bool, batches: seq<seq<WifiEvent>>, k: nat): bool
    decreases k
  {
    if k == 0 || batches == [] then connected else FlagAfter(FoldEvents(connected, batches[0]), batches[1..], k - 1)
  }

  lemma FlagAfterShift(r: Radio, k: nat)
    ensures FlagAfter(Delivered(Paused(r)).connected, Delivered(Paused(r)).pending, k) == FlagAfter(r.connected, r.pending, k + 1)
    ensures FlagAfter(Delivered(r).connected, Delivered(r).pending, k) == FlagAfter(r.connected, r.pending, k + 1)
  {
  }

  /** The poll loop ends connected exactly when the flag was already set or
      one of the next `n` deliveries sets it. */
  lemma {:induction false} PollLoopConnected(r: Radio, n: nat)
    ensures PollLoop(r, n).connected <==> r.connected || exists k :: 1 <= k <= n && FlagAfter(r.connected, r.pending, k)
    decreases n
  {
    if !r.connected && n > 0 {
      var r' := Delivered(Paused(r));
      PollLoopConnected(r', n - 1);
      if PollLoop(r, n).connected {
        if r'.connected {
          FlagAfterShift(r, 0);
          assert 1 <= 1 <= n && FlagAfter(r.connected, r.pending, 1);
        } else {
          var k :| 1 <= k <= n - 1 && FlagAfter(r'.connected, r'.pending, k);
          FlagAfterShift(r, k);
          assert 1 <= k + 1 <= n && FlagAfter(r.connected, r.pending, k + 1);
        }
      } else {
        forall k | 1 <= k <= n ensures !FlagAfter(r.connected, r.pending, k) {
          FlagAfterShift(r, k - 1);
        }
      }
    }
  }

  /** The wait succeeds exactly when the flag is set at one of its
      `polls + 1` checks. */
  lemma WaitConnectedIff(r: Radio, polls: nat)
    ensures WaitSpec(r, polls).connected <==> exists k :: 1 <= k <= polls + 1 && FlagAfter(r.connected, r.pending, k)
  {
    var d := Delivered(r);
    PollLoopConnected(d, polls);
    FlagAfterShift(r, 0);
    if WaitSpec(r, polls).connected && !d.connected {
      var k :| 1 <= k <= polls && FlagAfter(d.connected, d.pending, k);
      FlagAfterShift(r, k);
    }
    if !WaitSpec(r, polls).connected {
      forall k | 1 <= k <= polls + 1 ensures !FlagAfter(r.connected, r.pending, k) {
        FlagAfterShift(r, k - 1);
      }
    }
  }

  /** The poll loop waits one delay per failed poll: at most `n` of them,
      all `n` when it ends unconnected. */
  lemma {:induction false} PollLoopTime(r: Radio, n: nat)
    ensures r.elapsedMs <= PollLoop(r, n).elapsedMs <= r.elapsedMs + n * POLL_DELAY_MS
    ensures !PollLoop(r, n).connected ==> PollLoop(r, n).elapsedMs == r.elapsedMs + n * POLL_DELAY_MS
    decreases n
  {
    if !r.connected && n > 0 {
      PollLoopTime(Delivered(Paused(r)), n - 1);
    }
  }

  /** The wait takes at most `polls` seconds, all of them when it fails. */
  lemma WaitTime(r: Radio, polls: nat)
    ensures r.elapsedMs <= WaitSpec(r, polls).elapsedMs <= r.elapsedMs + polls * POLL_DELAY_MS
    ensures !WaitSpec(r, polls).connected ==> WaitSpec(r, polls).elapsedMs == r.elapsedMs + polls * POLL_DELAY_MS
  {
    PollLoopTime(Delivered(r), polls);
  }

  /** When the flag is first set at check `k`, the poll loop stops there,
      connected, after `k` delays. */
  lemma {:induction false} PollLoopStopsAtFirstSuccess(r: Radio, n: nat, k: nat)
    requires k <= n && FlagAfter(r.connected, r.pending, k)
    requires forall j :: 0 <= j < k ==> !FlagAfter(r.connected, r.pending, j)
    ensures PollLoop(r, n).connected && PollLoop(r, n).elapsedMs == r.elapsedMs + k * POLL_DELAY_MS
    decreases n
  {
    if k > 0 {
      var r' := Delivered(Paused(r));
      assert !r.connected by { assert !FlagAfter(r.connected, r.pending, 0); }
      FlagAfterShift(r, k - 1);
      forall j | 0 <= j < k - 1 ensures !FlagAfter(r'.connected, r'.pending, j) {
        FlagAfterShift(r, j);
      }
      PollLoopStopsAtFirstSuccess(r', n - 1, k - 1);
    }
  }

  /** When the flag is first set at check `k` of a wait, the wait returns
      true after `k - 1` delays. */
  lemma WaitStopsAtFirstSuccess(r: Radio, polls: nat, k: nat)
    requires 1 <= k <= polls + 1 && FlagAfter(r.connected, r.pending, k)
    requires forall j :: 1 <= j < k ==> !FlagAfter(r.connected, r.pending, j)
    ensures WaitSpec(r, polls).connected && WaitSpec(r, polls).elapsedMs == r.elapsedMs + (k - 1) * POLL_DELAY_MS
  {
    var d := Delivered(r);
    FlagAfterShift(r, k - 1);
    forall j | 0 <= j < k - 1 ensures !FlagAfter(d.connected, d.pending, j) {
      FlagAfterShift(r, j);
    }
    PollLoopStopsAtFirstSuccess(d, polls, k - 1);
  }

  // ---------------------------------------------------------------------
  // Station configurations requested

  /** The station configurations among the driver requests, in order. */
  function ConfigsOf(calls: seq<DriverCall>): seq<StaConfig>
    decreases |calls|
  {
    if calls == [] then []
    else
      var last := calls[|calls| - 1];
      ConfigsOf(calls[..|calls| - 1]) + (if last.SetStaConfig? then [last.sta] else [])
  }

  lemma {:induction false} ConfigsOfAppend(a: seq<DriverCall>, b: seq<DriverCall>)
    ensures ConfigsOf(a + b) == ConfigsOf(a) + ConfigsOf(b)
    decreases |b|
  {
    if b != [] {
      var last := b[|b| - 1];
      assert (a + b)[..|a + b| - 1] == a + b[..|b| - 1];
      assert (a + b)[|a + b| - 1] == last;
      assert ConfigsOf(a + b) == ConfigsOf(a + b[..|b| - 1]) + (if last.SetStaConfig? then [last.sta] else []);
      assert ConfigsOf(b) == ConfigsOf(b[..|b| - 1]) + (if last.SetStaConfig? then [last.sta] else []);
      ConfigsOfAppend(a, b[..|b| - 1]);
    } else {
      assert a + b == a;
    }
  }

  lemma ConfigsOfConnects(calls: seq<DriverCall>)
    requires forall i :: 0 <= i < |calls| ==> calls[i] == Connect
    ensures ConfigsOf(calls) == []
  {
    if calls != [] {
      ConfigsOfConnects(calls[..|calls| - 1]);
    }
  }

  /** Waiting configures nothing: the handler only ever asks for connects. */
  lemma {:induction false} PollLoopKeepsConfigs(r: Radio, n: nat)
    ensures ConfigsOf(PollLoop(r, n).calls) == ConfigsOf(r.calls)
    decreases n
  {
    if !r.connected && n > 0 {
      DeliveredKeepsConfigs(Paused(r));
      PollLoopKeepsConfigs(Delivered(Paused(r)), n - 1);
    }
  }

  lemma DeliveredKeepsConfigs(r: Radio)
    ensures ConfigsOf(Delivered(r).calls) == ConfigsOf(r.calls)
  {
    if r.pending != [] {
      ConfigsOfAppend(r.calls, Reactions(r.pending[0]));
      ConfigsOfConnects(Reactions(r.pending[0]));
    }
  }

  lemma WaitKeepsConfigs(r: Radio, polls: nat)
    ensures ConfigsOf(WaitSpec(r, polls).calls) == ConfigsOf(r.calls)
  {
    DeliveredKeepsConfigs(r);
    PollLoopKeepsConfigs(Delivered(r), polls);
  }

  // ---------------------------------------------------------------------
  // Station connect from stored credentials

  /** The stored credentials, read into `char ssid[32]` and
      `char password[64]`; None when the store does not open (`store` is
      None) or either read fails. */
  function Credentials(store: Option<Store>): (c: Option<(string, string)>)
    ensures c.Some? <==>
              (store.Some? && GetStr(store.value, KEY_SSID, CRED_SSID_SIZE).Some?
               && GetStr(store.value, KEY_PASSWORD, CRED_PASSWORD_SIZE).Some?)
    ensures c.Some? ==>
              (|c.value.0| < CRED_SSID_SIZE && |c.value.1| < CRED_PASSWORD_SIZE
               && store.value[KEY_SSID] == Str(c.value.0) && store.value[KEY_PASSWORD] == Str(c.value.1))
  {
    match store
    case None => None
    case Some(s) =>
      match GetStr(s, KEY_SSID, CRED_SSID_SIZE)
      case None => None
      case Some(ssid) =>
        match GetStr(s, KEY_PASSWORD, CRED_PASSWORD_SIZE)
        case None => None
        case Some(password) => Some((ssid, password))
  }

  /** `esp_wifi_set_config` with a station configuration, then `esp_wifi_connect`. */
  function Associate(r: Radio, cfg: StaConfig): Radio {
    r.(calls := r.calls + [SetStaConfig(cfg), Connect])
  }

  /** `connect_to_wifi`. */
  function ConnectSpec(r: Radio, store: Option<Store>): Outcome {
    match Credentials(store)
    case None => Outcome(false, r)
    case Some((ssid, password)) =>
      var w := WaitSpec(Associate(r, StaConfig(ssid, password, Wpa2Psk)), STA_POLLS);
      Outcome(w.connected, w)
  }

  /** Without both credentials nothing is asked of the driver and false is
      returned; with them, exactly one WPA2 station configuration carrying
      them is requested, at most 10 s are waited (all 10 on failure), and the
      result is true exactly when one of the 11 checks sees the flag set. */
  lemma ConnectSpecProperties(r: Radio, store: Option<Store>)
    ensures Credentials(store).None? ==> ConnectSpec(r, store) == Outcome(false, r)
    ensures Credentials(store).Some? ==>
      var o := ConnectSpec(r, store);
      var (ssid, password) := Credentials(store).value;
      ConfigsOf(o.radio.calls) == ConfigsOf(r.calls) + [StaConfig(ssid, password, Wpa2Psk)]
      && o.ok == o.radio.connected
      && o.radio.elapsedMs <= r.elapsedMs + STA_POLLS * POLL_DELAY_MS
      && (!o.ok ==> o.radio.elapsedMs == r.elapsedMs + STA_POLLS * POLL_DELAY_MS)
      && (o.ok <==> exists k :: 1 <= k <= STA_POLLS + 1 && FlagAfter(r.connected, r.pending, k))
  {
    if Credentials(store).Some? {
      var (ssid, password) := Credentials(store).value;
      StationAttempt(r, StaConfig(ssid, password, Wpa2Psk));
    }
  }

  /** One station attempt with a given configuration. */
  lemma StationAttempt(r: Radio, cfg: StaConfig)
    ensures var w := WaitSpec(Associate(r, cfg), STA_POLLS);
      ConfigsOf(w.calls) == ConfigsOf(r.calls) + [cfg]
      && w.elapsedMs <= r.elapsedMs + STA_POLLS * POLL_DELAY_MS
      && (!w.connected ==> w.elapsedMs == r.elapsedMs + STA_POLLS * POLL_DELAY_MS)
      && (w.connected <==> exists k :: 1 <= k <= STA_POLLS + 1 && FlagAfter(r.connected, r.pending, k))
  {
    var a := Associate(r, cfg);
    WaitKeepsConfigs(a, STA_POLLS);
    AssociateConfigs(r, cfg);
    WaitTime(a, STA_POLLS);
    WaitConnectedIff(a, STA_POLLS);
  }

  // ---------------------------------------------------------------------
  // The open-network scan

  /** The records the scan loop looks at: at most 20. */
  function Capped(scan: seq<ApRecord>): (rs: seq<ApRecord>)
    ensures |rs| == Min(|scan|, MAX_AP_RECORDS) && rs <= scan
  {
    scan[..Min(|scan|, MAX_AP_RECORDS)]
  }

  /** The indices from `i` on of the open records, in increasing order. */
  function OpenIndicesFrom(rs: seq<ApRecord>, i: nat): (ks: seq<nat>)
    ensures forall j :: 0 <= j < |ks| ==> i <= ks[j] < |rs| && rs[ks[j]].authmode == Open
    ensures forall j, j' :: 0 <= j < j' < |ks| ==> ks[j] < ks[j']
    ensures forall k :: i <= k < |rs| && rs[k].authmode == Open ==> k in ks
    decreases |rs| - i
  {
    if i >= |rs| then [] else (if rs[i].authmode == Open then [i] else []) + OpenIndicesFrom(rs, i + 1)
  }

  /** The SSIDs of the records at indices `ks`, in that order. */
  function Ssids(rs: seq<ApRecord>, ks: seq<nat>): (cs: seq<string>)
    requires forall j :: 0 <= j < |ks| ==> ks[j] < |rs|
    ensures |cs| == |ks| && forall j :: 0 <= j < |cs| ==> cs[j] == rs[ks[j]].ssid
  {
    seq(|ks|, j requires 0 <= j < |ks| => rs[ks[j]].ssid)
  }

  lemma SsidsAppend(rs: seq<ApRecord>, a: seq<nat>, b: seq<nat>)
    requires forall j :: 0 <= j < |a| ==> a[j] < |rs|
    requires forall j :: 0 <= j < |b| ==> b[j] < |rs|
    ensures Ssids(rs, a + b) == Ssids(rs, a) + Ssids(rs, b)
  {
    var ab := a + b;
    assert forall j :: 0 <= j < |ab| ==> ab[j] == if j < |a| then a[j] else b[j - |a|];
  }

  /** The SSIDs of the open records from `i` on, in scan order. */
  function CandidatesFrom(rs: seq<ApRecord>, i: nat): (cs: seq<string>)
    ensures |cs| == |OpenIndicesFrom(rs, i)|
    ensures forall j :: 0 <= j < |cs| ==> cs[j] == rs[OpenIndicesFrom(rs, i)[j]].ssid
  {
    Ssids(rs, OpenIndicesFrom(rs, i))
  }

  lemma NoCandidatesAtEnd(rs: seq<ApRecord>)
    ensures CandidatesFrom(rs, |rs|) == []
  {
    assert OpenIndicesFrom(rs, |rs|) == [];
  }

  lemma CandidatesStep(rs: seq<ApRecord>, i: nat)
    requires i < |rs|
    ensures CandidatesFrom(rs, i) == (if rs[i].authmode == Open then [rs[i].ssid] else []) + CandidatesFrom(rs, i + 1)
  {
    var head: seq<nat> := if rs[i].authmode == Open then [i] else [];
    var rest := OpenIndicesFrom(rs, i + 1);
    assert OpenIndicesFrom(rs, i) == head + rest;
    SsidsAppend(rs, head, rest);
    assert Ssids(rs, head) == if rs[i].authmode == Open then [rs[i].ssid] else [];
  }

  /** The station configuration for an open network. */
  function OpenStaConfig(ssid: string): StaConfig {
    StaConfig(ssid, "", Open)
  }

  function OpenConfigs(cs: seq<string>): (r: seq<StaConfig>)
    ensures |r| == |cs| && forall j :: 0 <= j < |cs| ==> r[j] == OpenStaConfig(cs[j])
  {
    seq(|cs|, j requires 0 <= j < |cs| => OpenStaConfig(cs[j]))
  }

  /** The candidates tried one after the other, each with a 5-poll wait,
      until one connects. */
  function TryCandidates(r: Radio, cs: seq<string>): Outcome
    decreases |cs|
  {
    if cs == [] then Outcome(false, r)
    else
      var w := WaitSpec(Associate(r, OpenStaConfig(cs[0])), OPEN_POLLS);
      if w.connected then Outcome(true, w) else TryCandidates(w, cs[1..])
  }

  /** Helper: `TryCandidates` unfolded once for a non-empty list. */
  lemma TryCandidatesCons(r: Radio, c: string, rest: seq<string>)
    ensures TryCandidates(r, [c] + rest) ==
      var w := WaitSpec(Associate(r, OpenStaConfig(c)), OPEN_POLLS);
      if w.connected then Outcome(true, w) else TryCandidates(w, rest)
  {
    assert ([c] + rest)[0] == c && ([c] + rest)[1..] == rest;
  }

  /** One try of an open network: configure it, connect, wait 5 polls. */
  function OpenAttempt(r: Radio, c: string): Radio {
    WaitSpec(Associate(r, OpenStaConfig(c)), OPEN_POLLS)
  }

  /** The radio after trying the first `j` candidates one after the other. */
  function RadioAfter(r: Radio, cs: seq<string>, j: nat): Radio
    requires j <= |cs|
    decreases j
  {
    if j == 0 then r else RadioAfter(OpenAttempt(r, cs[0]), cs[1..], j - 1)
  }

  /** The first try and what follows it. */
  lemma TryCandidatesFirst(r: Radio, cs: seq<string>)
    requires cs != []
    ensures var w := OpenAttempt(r, cs[0]);
      RadioAfter(r, cs, 1) == w
      && TryCandidates(r, cs) == (if w.connected then Outcome(true, w) else TryCandidates(w, cs[1..]))
      && forall j :: 1 <= j <= |cs| ==> RadioAfter(r, cs, j) == RadioAfter(w, cs[1..], j - 1)
  {
  }

  /** The tries stop at the first candidate that connects: when the result
      is true, the `k` tries before the successful one all ended without the
      link and no candidate after it is tried; when it is false, every
      candidate was tried and none connected. */
  lemma {:induction false} TryCandidatesStopsAtFirst(r: Radio, cs: seq<string>) returns (k: nat)
    ensures TryCandidates(r, cs).ok ==>
      k < |cs| && (forall j :: 1 <= j <= k ==> !RadioAfter(r, cs, j).connected)
      && RadioAfter(r, cs, k + 1).connected && TryCandidates(r, cs).radio == RadioAfter(r, cs, k + 1)
    ensures !TryCandidates(r, cs).ok ==>
      k == |cs| && (forall j :: 1 <= j <= |cs| ==> !RadioAfter(r, cs, j).connected)
      && TryCandidates(r, cs).radio == RadioAfter(r, cs, |cs|)
    decreases |cs|
  {
    if cs == [] {
      k := 0;
    } else {
      var w := OpenAttempt(r, cs[0]);
      TryCandidatesFirst(r, cs);
      if w.connected {
        k := 0;
      } else {
        var k' := TryCandidatesStopsAtFirst(w, cs[1..]);
        k := k' + 1;
      }
    }
  }

  /** Waiting and trying only ever add driver requests to the log. */
  lemma {:induction false} PollLoopExtendsCalls(r: Radio, n: nat)
    ensures r.calls <= PollLoop(r, n).calls
    decreases n
  {
    if !r.connected && n > 0 {
      var r' := Delivered(Paused(r));
      PollLoopExtendsCalls(r', n - 1);
      assert r.calls <= r'.calls;
    }
  }

  lemma {:induction false} TryCandidatesExtendsCalls(r: Radio, cs: seq<string>)
    ensures r.calls <= TryCandidates(r, cs).radio.calls
    decreases |cs|
  {
    if cs != [] {
      var a := Associate(r, OpenStaConfig(cs[0]));
      var w := WaitSpec(a, OPEN_POLLS);
      PollLoopExtendsCalls(Delivered(a), OPEN_POLLS);
      assert r.calls <= w.calls;
      if !w.connected {
        TryCandidatesExtendsCalls(w, cs[1..]);
      }
    }
  }

  /** `scan_and_connect_open_network`. */
  function ScanSpec(r: Radio, scan: seq<ApRecord>): Outcome {
    TryCandidates(r.(calls := r.calls + [ScanStart]), CandidatesFrom(Capped(scan), 0))
  }

  lemma AssociateConfigs(r: Radio, cfg: StaConfig)
    ensures ConfigsOf(Associate(r, cfg).calls) == ConfigsOf(r.calls) + [cfg]
  {
    ConfigsOfAppend(r.calls, [SetStaConfig(cfg), Connect]);
    ConfigsOfAppend([SetStaConfig(cfg)], [Connect]);
    ConfigsOfConnects([Connect]);
    assert [SetStaConfig(cfg)] + [Connect] == [SetStaConfig(cfg), Connect];
  }

  /** The candidates are configured in order, a prefix of them: all of them
      when none connects; each try waits at most 5 s. (That the prefix ends
      at the first candidate that connects is `TryCandidatesStopsAtFirst`.) */
  predicate TriedPrefix(r: Radio, cs: seq<string>, o: Outcome, k: nat) {
    k <= |cs| && ConfigsOf(o.radio.calls) == ConfigsOf(r.calls) + OpenConfigs(cs[..k])
    && (o.ok ==> 1 <= k && o.radio.connected)
    && (!o.ok ==> k == |cs|)
    && r.elapsedMs <= o.radio.elapsedMs <= r.elapsedMs + k * (OPEN_POLLS * POLL_DELAY_MS)
  }

  lemma {:induction false} TryCandidatesShape(r: Radio, cs: seq<string>) returns (k: nat)
    ensures TriedPrefix(r, cs, TryCandidates(r, cs), k)
    decreases |cs|
  {
    var o := TryCandidates(r, cs);
    if cs == [] {
      k := 0;
      assert OpenConfigs(cs[..0]) == [];
    } else {
      var a := Associate(r, OpenStaConfig(cs[0]));
      var w := WaitSpec(a, OPEN_POLLS);
      AssociateConfigs(r, OpenStaConfig(cs[0]));
      WaitKeepsConfigs(a, OPEN_POLLS);
      WaitTime(a, OPEN_POLLS);
      if w.connected {
        k := 1;
        assert OpenConfigs(cs[..1]) == [OpenStaConfig(cs[0])];
      } else {
        var k' := TryCandidatesShape(w, cs[1..]);
        TriedStep(r, cs, w, o, k');
        k := k' + 1;
      }
    }
  }

  lemma TriedStep(r: Radio, cs: seq<string>, w: Radio, o: Outcome, k: nat)
    requires cs != [] && TriedPrefix(w, cs[1..], o, k)
    requires ConfigsOf(w.calls) == ConfigsOf(r.calls) + [OpenStaConfig(cs[0])]
    requires r.elapsedMs <= w.elapsedMs <= r.elapsedMs + OPEN_POLLS * POLL_DELAY_MS
    requires o.ok ==> o.radio.connected
    ensures TriedPrefix(r, cs, o, k + 1)
  {
    assert OpenConfigs(cs[..k + 1]) == [OpenStaConfig(cs[0])] + OpenConfigs(cs[1..][..k]);
  }

  /** What the scan asks of the driver: the networks configured are the open
      ones among the first 20 records, in index order, a prefix of them that
      is all of them when the result is false; success is the flag's value. */
  lemma ScanSpecShape(r: Radio, scan: seq<ApRecord>) returns (k: nat)
    ensures TriedPrefix(r, CandidatesFrom(Capped(scan), 0), ScanSpec(r, scan), k)
  {
    var cs := CandidatesFrom(Capped(scan), 0);
    k := TryCandidatesShape(r.(calls := r.calls + [ScanStart]), cs);
    TriedAfterScanStart(r, cs, ScanSpec(r, scan), k);
  }

  /** Starting the scan adds no station configuration and takes no time. */
  lemma TriedAfterScanStart(r: Radio, cs: seq<string>, o: Outcome, k: nat)
    requires TriedPrefix(r.(calls := r.calls + [ScanStart]), cs, o, k)
    ensures TriedPrefix(r, cs, o, k)
  {
    ConfigsOfAppend(r.calls, [ScanStart]);
    assert ConfigsOf([ScanStart]) == [];
  }

  /** `esp_wifi_scan_get_ap_records` into `ap_records[20]`: the first
      `count` records of the scan. */
  method GetApRecords(scan: seq<ApRecord>, count: nat) returns (records: array<ApRecord>)
    requires count <= |scan| && count <= MAX_AP_RECORDS
    ensures fresh(records) && records.Length == MAX_AP_RECORDS
    ensures records[..count] == scan[..count]
  {
    records := new ApRecord[MAX_AP_RECORDS](_ => ApRecord([], OtherAuth));
    for k := 0 to count
      invariant records[..k] == scan[..k]
    {
      records[k] := scan[k];
      assert records[..k + 1] == records[..k] + [records[k]];
    }
  }

  // ---------------------------------------------------------------------
  // The access point

  /** The configuration of `create_ap`. */
  const AP_SSID: string := "CryptoDongle"
  const AP_CONFIG: ApConfig := ApConfig(AP_SSID, |AP_SSID|, 1, "", 4, Open)

  // ---------------------------------------------------------------------
  // The module's state

  class Manager {
    /** `wifi_connected`. */
    var connected: bool
    /** The event batches the radio has yet to deliver. */
    var pending: seq<seq<WifiEvent>>
    /** The driver requests made so far. */
    var calls: seq<DriverCall>
    /** Time spent in `vTaskDelay`. */
    var elapsedMs: nat

    function State(): Radio
      reads this
    {
      Radio(connected, pending, calls, elapsedMs)
    }

    /** `wifi_connected = false` at start-up; `events` is what the radio
        will deliver. */
    constructor (events: seq<seq<WifiEvent>>)
      ensures State() == Radio(false, events, [], 0)
    {
      connected, pending, calls, elapsedMs := false, events, [], 0;
    }

    /** `wifi_event_handler`. */
    method HandleEvent(e: WifiEvent)
      modifies this
      ensures connected == OnEvent(old(connected), e)
      ensures calls == old(calls) + Reaction(e)
      ensures pending == old(pending) && elapsedMs == old(elapsedMs)
    {
      match e {
        case StaStart => calls := calls + [Connect];
        case StaConnected => connected := true;
        case StaDisconnected => connected := false;
        case ApStaConnected =>
        case ApStaDisconnected =>
        case OtherWifiEvent =>
        case OtherBaseEvent =>
      }
    }

    /** The handler runs over the next batch. */
    method Deliver()
      modifies this
      ensures State() == Delivered(old(State()))
    {
      if pending != [] {
        var batch := pending[0];
        pending := pending[1..];
        for k := 0 to |batch|
          invariant connected == FoldEvents(old(connected), batch[..k])
          invariant calls == old(calls) + Reactions(batch[..k])
          invariant pending == old(pending)[1..] && elapsedMs == old(elapsedMs)
        {
          HandlerStep(old(connected), batch, k);
          HandleEvent(batch[k]);
        }
        assert batch[..|batch|] == batch;
      }
    }

    /** `vTaskDelay(pdMS_TO_TICKS(1000))`. */
    method Pause()
      modifies this
      ensures State() == Paused(old(State()))
    {
      elapsedMs := elapsedMs + POLL_DELAY_MS;
    }

    /** The wait loop of both connect paths, with `polls` polls. */
    method WaitForConnection(polls: nat) returns (ok: bool)
      modifies this
      ensures State() == WaitSpec(old(State()), polls)
      ensures ok == connected
    {
      Deliver();
      var retry := 0;
      while !connected && retry < polls
        invariant 0 <= retry <= polls
        invariant PollLoop(State(), polls - retry) == WaitSpec(old(State()), polls)
        decreases polls - retry
      {
        Pause();
        retry := retry + 1;
        Deliver();
      }
      ok := connected;
    }

    /** `init_wifi`: station mode, then start (the driver answers with
        STA_START among the pending events). */
    method InitWifi()
      modifies this
      ensures State() == old(State()).(calls := old(calls) + [SetMode(StationMode), Start])
    {
      calls := calls + [SetMode(StationMode), Start];
    }

    /** `connect_to_wifi`; `store` is None when `nvs_open` fails. */
    method ConnectToWifi(store: Option<Store>) returns (ok: bool)
      modifies this
      ensures Outcome(ok, State()) == ConnectSpec(old(State()), store)
    {
      if store.None? {
        return false;
      }
      var ssid := GetStr(store.value, KEY_SSID, CRED_SSID_SIZE);
      if ssid.None? {
        return false;
      }
      var password := GetStr(store.value, KEY_PASSWORD, CRED_PASSWORD_SIZE);
      if password.None? {
        return false;
      }
      calls := calls + [SetStaConfig(StaConfig(ssid.value, password.value, Wpa2Psk)), Connect];
      ok := WaitForConnection(STA_POLLS);
    }

    /** `scan_and_connect_open_network`; `scan` is what the blocking scan
        found. */
    method ScanAndConnectOpenNetwork(scan: seq<ApRecord>) returns (ok: bool)
      modifies this
      ensures Outcome(ok, State()) == ScanSpec(old(State()), scan)
    {
      calls := calls + [ScanStart];
      var count := |scan|;
      if count > MAX_AP_RECORDS {
        count := MAX_AP_RECORDS;
      }
      var records := GetApRecords(scan, count);
      ok := TryRecords(records, count, Capped(scan));
    }

    /** The record loop of `scan_and_connect_open_network` over the first
        `count` records: the open ones are tried in index order until one
        connects. */
    method TryRecords(records: array<ApRecord>, count: nat, ghost capped: seq<ApRecord>) returns (ok: bool)
      requires count <= records.Length && records[..count] == capped
      modifies this
      ensures Outcome(ok, State()) == TryCandidates(old(State()), CandidatesFrom(capped, 0))
    {
      var i := 0;
      while i < count
        invariant 0 <= i <= count
        invariant TryCandidates(State(), CandidatesFrom(capped, i)) == TryCandidates(old(State()), CandidatesFrom(capped, 0))
      {
        assert records[i] == capped[i];
        var up := TryRecord(records[i], capped, i);
        if up {
          return true;
        }
        i := i + 1;
      }
      NoCandidatesAtEnd(capped);
      ok := false;
    }

    /** One pass of the record loop of `scan_and_connect_open_network`:
        an open record is tried with a 5-poll wait, any other is passed
        over. */
    method TryRecord(record: ApRecord, ghost capped: seq<ApRecord>, ghost i: nat) returns (up: bool)
      requires i < |capped| && record == capped[i]
      modifies this
      ensures up ==> Outcome(true, State()) == TryCandidates(old(State()), CandidatesFrom(capped, i))
      ensures !up ==> TryCandidates(State(), CandidatesFrom(capped, i + 1)) == TryCandidates(old(State()), CandidatesFrom(capped, i))
    {
      CandidatesStep(capped, i);
      ghost var before := State();
      ghost var rest := CandidatesFrom(capped, i + 1);
      up := false;
      if record.authmode == Open {
        assert CandidatesFrom(capped, i) == [record.ssid] + rest;
        TryCandidatesCons(before, record.ssid, rest);
        calls := calls + [SetStaConfig(OpenStaConfig(record.ssid)), Connect];
        assert State() == Associate(before, OpenStaConfig(record.ssid));
        up := WaitForConnection(OPEN_POLLS);
      } else {
        assert CandidatesFrom(capped, i) == rest;
      }
    }

    /** `create_ap`: the access-point interface, AP mode and its fixed
        configuration. */
    method CreateAp()
      modifies this
      ensures State() == old(State()).(calls := old(calls) + [CreateApInterface, SetMode(AccessPointMode), SetApConfig(AP_CONFIG)])
    {
      calls := calls + [CreateApInterface, SetMode(AccessPointMode), SetApConfig(AP_CONFIG)];
    }

    /** `is_wifi_connected`. */
    function IsWifiConnected(): bool
      reads this
    {
      connected
    }
  }

  /** Helper: the fields of `AP_CONFIG` spelled out (open, "CryptoDongle"
      with its exact length, channel 1, no password, at most 4 clients). */
  lemma ApConfigFixed()
    ensures AP_CONFIG.ssid == "CryptoDongle" && AP_CONFIG.ssidLen == 12 && |AP_CONFIG.ssid| == AP_CONFIG.ssidLen
    ensures AP_CONFIG.channel == 1 && AP_CONFIG.authmode == Open && AP_CONFIG.password == "" && AP_CONFIG.maxConnection == 4
  {
  }
}
