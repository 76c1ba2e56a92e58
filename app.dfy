/** The firmware's entry point (src/main.c): start the settings store, bring
    up Wi-Fi by the three-stage fallback, read the selected pair, and in
    station mode fetch and show a quote every refresh interval.

    The flash driver's answers, the Wi-Fi events and scan, and the HTTP
    exchange are parameters. The endless loop is modelled for a given
    number of cycles; `update_display` is modelled by the list of quotes
    it is handed. */
module App {
  import opened CLib
  import opened Settings
  import opened WifiManager
  import CryptoPrice
  import WebServer

  /** `uint32_t refresh_interval = 60`. */
  const DEFAULT_REFRESH_S: u32 := 60
  const MS_PER_S: u32 := 1000

  // ---------------------------------------------------------------------
  // Starting the settings store

  /** What `nvs_flash_init` returns. */
  datatype FlashStatus = FlashOk | NoFreePages | NewVersionFound | FlashError

  predicate NeedsErase(s: FlashStatus) {
    s == NoFreePages || s == NewVersionFound
  }

  /** `nvs_flash_init`, with one erase and retry when the partition is full
      or from a newer format. `first` and `second` are what the two inits
      return and `eraseOk` whether the erase succeeds; None is the abort of
      `ESP_ERROR_CHECK`. An erase leaves the store empty. */
  function InitNvs(first: FlashStatus, eraseOk: bool, second: FlashStatus, store: Store): (r: Option<Store>)
    ensures first == FlashOk ==> r == Some(store)
    ensures first == FlashError ==> r.None?
    ensures NeedsErase(first) ==> (r.Some? <==> eraseOk && second == FlashOk)
    ensures NeedsErase(first) && r.Some? ==> r.value == map[]
  {
    if NeedsErase(first) then
      if !eraseOk then None
      else if second == FlashOk then Some(map[]) else None
    else if first == FlashOk then Some(store) else None
  }

  /** After an erase the station stage finds no credentials, so it asks
      nothing of the radio and fails. */
  lemma ErasedStoreHasNoCredentials(first: FlashStatus, eraseOk: bool, second: FlashStatus, store: Store, r: Radio)
    requires NeedsErase(first) && InitNvs(first, eraseOk, second, store).Some?
    ensures ConnectSpec(r, InitNvs(first, eraseOk, second, store)) == Outcome(false, r)
  {
  }

  // ---------------------------------------------------------------------
  // Bringing up Wi-Fi

  /** The radio after the bootstrap and whether the device is in AP mode. */
  datatype Boot = Boot(radio: Radio, apMode: bool)

  const AP_BRING_UP: seq<DriverCall> := [CreateApInterface, SetMode(AccessPointMode), SetApConfig(AP_CONFIG)]

  /** `init_wifi`, then stored credentials, then an open network, then the
      access point. */
  function BootSpec(r: Radio, store: Option<Store>, scan: seq<ApRecord>): Boot {
    var up := r.(calls := r.calls + [SetMode(StationMode), Start]);
    var station := ConnectSpec(up, store);
    if station.ok then Boot(station.radio, false)
    else
      var open := ScanSpec(station.radio, scan);
      if open.ok then Boot(open.radio, false)
      else Boot(open.radio.(calls := open.radio.calls + AP_BRING_UP), true)
  }

  /** Starting from a disconnected radio, a failed scan leaves it
      disconnected. */
  lemma {:induction false} TryCandidatesOkIffConnected(r: Radio, cs: seq<string>)
    requires !r.connected
    ensures TryCandidates(r, cs).ok <==> TryCandidates(r, cs).radio.connected
    decreases |cs|
  {
    if cs != [] {
      var w := WaitSpec(Associate(r, OpenStaConfig(cs[0])), OPEN_POLLS);
      if !w.connected {
        TryCandidatesOkIffConnected(w, cs[1..]);
      }
    }
  }

  /** The device ends in AP mode exactly when it is not connected, and then
      its last requests bring up the access point "CryptoDongle"; in
      station mode the link is up. */
  lemma BootModes(r: Radio, store: Option<Store>, scan: seq<ApRecord>)
    requires !r.connected
    ensures BootSpec(r, store, scan).apMode <==> !BootSpec(r, store, scan).radio.connected
    ensures BootSpec(r, store, scan).apMode ==>
      var calls := BootSpec(r, store, scan).radio.calls;
      |calls| >= 3 && calls[|calls| - 3..] == AP_BRING_UP
  {
    var up := r.(calls := r.calls + [SetMode(StationMode), Start]);
    var station := ConnectSpec(up, store);
    ConnectSpecProperties(up, store);
    if !station.ok {
      assert !station.radio.connected;
      TryCandidatesOkIffConnected(station.radio.(calls := station.radio.calls + [ScanStart]), CandidatesFrom(Capped(scan), 0));
    }
  }

  lemma ConfigsOfApBringUp(calls: seq<DriverCall>)
    ensures ConfigsOf(calls + AP_BRING_UP) == ConfigsOf(calls)
  {
    ConfigsOfAppend(calls, AP_BRING_UP);
    assert AP_BRING_UP == [CreateApInterface] + [SetMode(AccessPointMode)] + [SetApConfig(AP_CONFIG)];
    ConfigsOfAppend([CreateApInterface] + [SetMode(AccessPointMode)], [SetApConfig(AP_CONFIG)]);
    ConfigsOfAppend([CreateApInterface], [SetMode(AccessPointMode)]);
  }

  /** The order of the stages. After a successful station connect the boot
      ends there: no scan and no further request. Otherwise the scan starts
      right after the station attempt, and the networks configured are the
      stored one with WPA2 (when there are credentials), then open networks
      from the scan, in order. */
  lemma BootOrder(r: Radio, store: Option<Store>, scan: seq<ApRecord>) returns (k: nat)
    ensures k <= |CandidatesFrom(Capped(scan), 0)|
    ensures var station := ConnectSpec(r.(calls := r.calls + [SetMode(StationMode), Start]), store);
      var b := BootSpec(r, store, scan);
      (station.ok ==> b == Boot(station.radio, false))
      && (!station.ok ==> station.radio.calls + [ScanStart] <= b.radio.calls)
    ensures var station := ConnectSpec(r.(calls := r.calls + [SetMode(StationMode), Start]), store);
      var b := BootSpec(r, store, scan);
      var tried := OpenConfigs(CandidatesFrom(Capped(scan), 0)[..k]);
      match Credentials(store)
         case Some((ssid, password)) =>
           var first := ConfigsOf(r.calls) + [StaConfig(ssid, password, Wpa2Psk)];
           (station.ok ==> ConfigsOf(b.radio.calls) == first)
           && (!station.ok ==> ConfigsOf(b.radio.calls) == first + tried)
         case None =>
           !station.ok && ConfigsOf(b.radio.calls) == ConfigsOf(r.calls) + tried
  {
    var up := r.(calls := r.calls + [SetMode(StationMode), Start]);
    ConfigsOfAppend(r.calls, [SetMode(StationMode), Start]);
    ConfigsOfAppend([SetMode(StationMode)], [Start]);
    assert [SetMode(StationMode)] + [Start] == [SetMode(StationMode), Start];
    assert ConfigsOf(up.calls) == ConfigsOf(r.calls);
    var station := ConnectSpec(up, store);
    ConnectSpecProperties(up, store);
    k := ScanSpecShape(station.radio, scan);
    if !station.ok {
      ScanFollowsStation(station.radio, scan);
      var open := ScanSpec(station.radio, scan);
      if !open.ok {
        ConfigsOfApBringUp(open.radio.calls);
      }
    }
  }

  /** The scan's first request is the scan start, and the access point's
      requests come after the scan's. */
  lemma ScanFollowsStation(r: Radio, scan: seq<ApRecord>)
    ensures var open := ScanSpec(r, scan);
      r.calls + [ScanStart] <= open.radio.calls
      && r.calls + [ScanStart] <= open.radio.calls + AP_BRING_UP
  {
    var s := r.(calls := r.calls + [ScanStart]);
    TryCandidatesExtendsCalls(s, CandidatesFrom(Capped(scan), 0));
  }

  // ---------------------------------------------------------------------
  // The refresh interval

  /** The interval in seconds read before each wait: 60 unless the store
      opens and holds a u32 under "interval". */
  function RefreshIntervalS(store: Option<Store>): (s: u32)
    ensures store.Some? && GetU32(store.value, KEY_INTERVAL).Some? ==> s == store.value[KEY_INTERVAL].number
    ensures !(store.Some? && GetU32(store.value, KEY_INTERVAL).Some?) ==> s == DEFAULT_REFRESH_S
  {
    match store
    case None => DEFAULT_REFRESH_S
    case Some(s) =>
      match GetU32(s, KEY_INTERVAL)
      case None => DEFAULT_REFRESH_S
      case Some(v) => v
  }

  /** `refresh_interval * 1000` in 32-bit arithmetic: the wait in ms. */
  function RefreshDelayMs(store: Option<Store>): u32 {
    MulU32(RefreshIntervalS(store), MS_PER_S)
  }

  /** The interval a save stored is the one waited, exactly while it is at
      most 4294967 s; a longer one wraps around modulo 2^32 ms. */
  lemma SavedIntervalDelay(store: Store, f: WebServer.FormData)
    ensures var d := RefreshDelayMs(Some(WebServer.Persist(store, f)));
      d == (ToU32(f.interval) * 1000) % U32_MODULUS
      && (0 <= f.interval <= 4294967 ==> d == f.interval * 1000)
  {
    var saved := WebServer.Persist(store, f);
    assert saved[KEY_INTERVAL] == U32(ToU32(f.interval));
  }

  /** 4294968 s wraps to a wait of 704 ms. */
  lemma DelayWrapWitness(store: Store, f: WebServer.FormData)
    requires f.interval == 4294968
    ensures RefreshDelayMs(Some(WebServer.Persist(store, f))) == 704
  {
    SavedIntervalDelay(store, f);
  }

  // ---------------------------------------------------------------------
  // The station loop

  /** The result of the fetch in each of the first `n` cycles, where
      `http(i)` is the network during cycle `i`. */
  function Results(crypto: string, currency: string, http: nat -> (string -> CryptoPrice.HttpResponse),
                   parse: string -> Option<CryptoPrice.Json>, n: nat): (rs: seq<Option<CryptoPrice.Quote>>)
    ensures |rs| == n
  {
    seq(n, i requires 0 <= i < n => CryptoPrice.FetchSpec(crypto, currency, http(i)(CryptoPrice.RequestUrl(crypto, currency)), parse))
  }

  /** The quotes of the successful cycles, in order: what is handed to
      `update_display`. */
  function Successes(rs: seq<Option<CryptoPrice.Quote>>): seq<CryptoPrice.Quote>
    decreases |rs|
  {
    if rs == [] then []
    else Successes(rs[..|rs| - 1]) + (if rs[|rs| - 1].Some? then [rs[|rs| - 1].value] else [])
  }

  lemma SuccessesSnoc(rs: seq<Option<CryptoPrice.Quote>>, r: Option<CryptoPrice.Quote>)
    ensures Successes(rs + [r]) == Successes(rs) + (if r.Some? then [r.value] else [])
  {
    assert (rs + [r])[..|rs|] == rs;
  }

  /** The quote on the display after `shown`, starting from `initial`. */
  function LastShown(shown: seq<CryptoPrice.Quote>, initial: CryptoPrice.Quote): CryptoPrice.Quote {
    if shown == [] then initial else shown[|shown| - 1]
  }

  lemma LastShownAppend(a: seq<CryptoPrice.Quote>, b: seq<CryptoPrice.Quote>, initial: CryptoPrice.Quote)
    ensures LastShown(a + b, initial) == LastShown(b, LastShown(a, initial))
  {
    if b != [] {
      assert (a + b)[|a + b| - 1] == b[|b| - 1];
    }
  }

  /** What the loop of `RunStation` keeps: one more cycle adds its own
      quote, when it has one, to those of the cycles before it. */
  lemma StationStep(crypto: string, currency: string, http: nat -> (string -> CryptoPrice.HttpResponse),
                    parse: string -> Option<CryptoPrice.Json>, n: nat, i: nat, before: seq<CryptoPrice.Quote>)
    requires i < n
    requires before == Successes(Results(crypto, currency, http, parse, n)[..i])
    ensures var q := CryptoPrice.FetchSpec(crypto, currency, http(i)(CryptoPrice.RequestUrl(crypto, currency)), parse);
      before + (if q.Some? then [q.value] else []) == Successes(Results(crypto, currency, http, parse, n)[..i + 1])
  {
    var rs := Results(crypto, currency, http, parse, n);
    assert rs[..i + 1] == rs[..i] + [rs[i]];
    SuccessesSnoc(rs[..i], rs[i]);
  }

  /** The indices of the successful cycles, in increasing order. */
  function SuccessIndices(rs: seq<Option<CryptoPrice.Quote>>): (ks: seq<nat>)
    ensures forall j :: 0 <= j < |ks| ==> ks[j] < |rs| && rs[ks[j]].Some?
    ensures forall j, j' :: 0 <= j < j' < |ks| ==> ks[j] < ks[j']
    ensures forall i :: 0 <= i < |rs| && rs[i].Some? ==> i in ks
    decreases |rs|
  {
    if rs == [] then []
    else
      var init := rs[..|rs| - 1];
      assert forall i :: 0 <= i < |init| ==> init[i] == rs[i];
      SuccessIndices(init) + (if rs[|rs| - 1].Some? then [|rs| - 1] else [])
  }

  /** The quotes of the successful cycles are exactly theirs, one each and
      in cycle order. */
  lemma {:induction false} SuccessesInOrder(rs: seq<Option<CryptoPrice.Quote>>)
    ensures var ks := SuccessIndices(rs);
      |Successes(rs)| == |ks| && forall j :: 0 <= j < |ks| ==> Successes(rs)[j] == rs[ks[j]].value
    decreases |rs|
  {
    if rs != [] {
      var init := rs[..|rs| - 1];
      SuccessesInOrder(init);
      assert forall i :: 0 <= i < |init| ==> init[i] == rs[i];
    }
  }

  /** As many quotes as there are successful cycles. */
  lemma {:induction false} SuccessCount(rs: seq<Option<CryptoPrice.Quote>>)
    ensures |Successes(rs)| == |SuccessfulCycles(rs)|
    decreases |rs|
  {
    if rs != [] {
      var init := rs[..|rs| - 1];
      SuccessCount(init);
      SuccessfulCyclesSnoc(rs);
    }
  }

  /** The set of the successful cycles' indices. */
  function SuccessfulCycles(rs: seq<Option<CryptoPrice.Quote>>): set<nat> {
    set i: nat | i < |rs| && rs[i].Some?
  }

  lemma SuccessfulCyclesSnoc(rs: seq<Option<CryptoPrice.Quote>>)
    requires rs != []
    ensures var init := rs[..|rs| - 1];
      |SuccessfulCycles(rs)| == |SuccessfulCycles(init)| + (if rs[|rs| - 1].Some? then 1 else 0)
  {
    var init := rs[..|rs| - 1];
    var last := |rs| - 1;
    var extra: set<nat> := if rs[last].Some? then {last} else {};
    forall i: nat
      ensures i in SuccessfulCycles(rs) <==> i in SuccessfulCycles(init) + extra
    {
      if i < |init| {
        assert init[i] == rs[i];
      }
    }
    assert SuccessfulCycles(rs) == SuccessfulCycles(init) + extra;
    assert last !in SuccessfulCycles(init);
  }

  /** One quote per successful cycle, each from its cycle's result: none
      when every cycle fails, all of them when every cycle succeeds. */
  lemma {:induction false} SuccessesProperties(rs: seq<Option<CryptoPrice.Quote>>)
    ensures |Successes(rs)| <= |rs|
    ensures forall q :: q in Successes(rs) ==> Some(q) in rs
    ensures (forall i :: 0 <= i < |rs| ==> rs[i].None?) ==> Successes(rs) == []
    ensures (forall i :: 0 <= i < |rs| ==> rs[i].Some?) ==> |Successes(rs)| == |rs|
    decreases |rs|
  {
    if rs != [] {
      var init := rs[..|rs| - 1];
      SuccessesProperties(init);
      assert forall i :: 0 <= i < |init| ==> init[i] == rs[i];
      forall q | q in Successes(rs) ensures Some(q) in rs {
        if q in Successes(init) {
          assert Some(q) in init;
        } else {
          assert rs[|rs| - 1] == Some(q);
        }
      }
    }
  }

  /** The quotes shown in the first `n` cycles. */
  function Shown(crypto: string, currency: string, http: nat -> (string -> CryptoPrice.HttpResponse),
                 parse: string -> Option<CryptoPrice.Json>, n: nat): seq<CryptoPrice.Quote> {
    Successes(Results(crypto, currency, http, parse, n))
  }

  /** Every quote shown is for the selected crypto and comes from one
      cycle's successful fetch; there is at most one per cycle, none when the
      service is unreachable throughout, and one per cycle when every fetch
      succeeds. */
  lemma ShownProperties(crypto: string, currency: string, http: nat -> (string -> CryptoPrice.HttpResponse),
                        parse: string -> Option<CryptoPrice.Json>, n: nat)
    ensures |Shown(crypto, currency, http, parse, n)| <= n
    ensures forall q :: q in Shown(crypto, currency, http, parse, n) ==>
      q.symbol == StrNCopy(crypto, CryptoPrice.SYMBOL_SIZE - 1)
      && exists i :: 0 <= i < n && CryptoPrice.FetchSpec(crypto, currency, http(i)(CryptoPrice.RequestUrl(crypto, currency)), parse) == Some(q)
    ensures (forall i :: 0 <= i < n ==> !http(i)(CryptoPrice.RequestUrl(crypto, currency)).performOk)
            ==> Shown(crypto, currency, http, parse, n) == []
    ensures (forall i :: 0 <= i < n ==>
               CryptoPrice.FetchSpec(crypto, currency, http(i)(CryptoPrice.RequestUrl(crypto, currency)), parse).Some?)
            ==> |Shown(crypto, currency, http, parse, n)| == n
  {
    var rs := Results(crypto, currency, http, parse, n);
    SuccessesProperties(rs);
    forall q | q in Successes(rs)
      ensures q.symbol == StrNCopy(crypto, CryptoPrice.SYMBOL_SIZE - 1)
      ensures exists i :: 0 <= i < n && CryptoPrice.FetchSpec(crypto, currency, http(i)(CryptoPrice.RequestUrl(crypto, currency)), parse) == Some(q)
    {
      var i :| 0 <= i < n && rs[i] == Some(q);
      assert CryptoPrice.FetchSpec(crypto, currency, http(i)(CryptoPrice.RequestUrl(crypto, currency)), parse) == Some(q);
    }
  }

  /** The interval read of one cycle: 60 unless the store opens and
      `nvs_get_u32` finds the key. */
  method ReadInterval(store: Option<Store>) returns (interval: u32)
    ensures interval == RefreshIntervalS(store)
  {
    interval := DEFAULT_REFRESH_S;
    if store.Some? {
      var v := GetU32(store.value, KEY_INTERVAL);
      if v.Some? {
        interval := v.value;
      }
    }
  }

  /** One cycle: fetch, show the quote on success, then the wait. */
  method RunCycle(selection: CryptoPrice.Selection, priceData: CryptoPrice.PriceData, store: Option<Store>,
                  http: string -> CryptoPrice.HttpResponse, parse: string -> Option<CryptoPrice.Json>)
    returns (shown: seq<CryptoPrice.Quote>, delay: u32)
    modifies priceData
    ensures var q := CryptoPrice.FetchSpec(selection.crypto, selection.currency, http(CryptoPrice.RequestUrl(selection.crypto, selection.currency)), parse);
      shown == (if q.Some? then [q.value] else [])
      && priceData.Value() == LastShown(shown, old(priceData.Value()))
    ensures delay == RefreshDelayMs(store)
  {
    var ok := selection.Fetch(priceData, http, parse);
    shown := if ok then [priceData.Value()] else [];
    var interval := ReadInterval(store);
    delay := MulU32(interval, MS_PER_S);
  }

  /** The station loop for `cycles` cycles: fetch, show on success, wait
      the refresh interval. The store does not change while it runs. */
  method RunStation(selection: CryptoPrice.Selection, priceData: CryptoPrice.PriceData, store: Option<Store>,
                    http: nat -> (string -> CryptoPrice.HttpResponse), parse: string -> Option<CryptoPrice.Json>, cycles: nat)
    returns (shown: seq<CryptoPrice.Quote>, delays: seq<u32>)
    modifies priceData
    ensures shown == Shown(selection.crypto, selection.currency, http, parse, cycles)
    ensures delays == seq(cycles, _ => RefreshDelayMs(store))
    ensures priceData.Value() == if shown == [] then old(priceData.Value()) else shown[|shown| - 1]
  {
    ghost var results := Results(selection.crypto, selection.currency, http, parse, cycles);
    ghost var initial := priceData.Value();
    shown, delays := [], [];
    assert results[..0] == [];
    var i := 0;
    while i < cycles
      invariant 0 <= i <= cycles
      invariant shown == Successes(results[..i])
      invariant |delays| == i && forall k :: 0 <= k < i ==> delays[k] == RefreshDelayMs(store)
      invariant priceData.Value() == LastShown(shown, initial)
    {
      var now, delay := RunCycle(selection, priceData, store, http(i), parse);
      StationStep(selection.crypto, selection.currency, http, parse, cycles, i, shown);
      LastShownAppend(shown, now, initial);
      shown := shown + now;
      delays := delays + [delay];
      i := i + 1;
    }
    assert results[..cycles] == results;
    assert delays == seq(cycles, _ => RefreshDelayMs(store));
  }

  // ---------------------------------------------------------------------
  // app_main

  /** The network part of `app_main`: saved credentials, then the first
      open network of the scan that connects, then the access point (and
      the web server with it). */
  method BringUpWifi(store: Option<Store>, events: seq<seq<WifiEvent>>, scan: seq<ApRecord>) returns (apMode: bool)
    ensures apMode == BootSpec(Radio(false, events, [], 0), store, scan).apMode
  {
    var wifi := new Manager(events);
    wifi.InitWifi();
    var ok := wifi.ConnectToWifi(store);
    apMode := false;
    if !ok {
      ok := wifi.ScanAndConnectOpenNetwork(scan);
      if !ok {
        wifi.CreateAp();
        assert wifi.calls[..|wifi.calls| - 3] + AP_BRING_UP == wifi.calls;
        apMode := true;
      }
    }
  }

  /** `nvs_open("storage", NVS_READONLY)` once the flash has started: it
      fails when the namespace was never written, as on a first boot or
      after an erase. The stage readers see None then. */
  function OpenReadOnly(flash: Store, namespaceOpens: bool): (r: Option<Store>)
    ensures r.Some? <==> namespaceOpens
    ensures r.Some? ==> r.value == flash
  {
    if namespaceOpens then Some(flash) else None
  }

  /** What `app_main` does in `cycles` cycles: whether the store started,
      whether the device is in AP mode (the web server runs exactly then),
      the pair `init_crypto_price` selected, the quotes shown and the waits
      of the poll loop. `namespaceOpens` is whether the read-only opens
      succeed; `stale` is what the uninitialised `price_data` holds. */
  method AppMain(first: FlashStatus, eraseOk: bool, second: FlashStatus, flash: Store, namespaceOpens: bool,
                 events: seq<seq<WifiEvent>>, scan: seq<ApRecord>,
                 http: nat -> (string -> CryptoPrice.HttpResponse), parse: string -> Option<CryptoPrice.Json>,
                 cycles: nat, stale: CryptoPrice.Quote)
    returns (started: bool, apMode: bool, serverRunning: bool, crypto: string, currency: string,
             shown: seq<CryptoPrice.Quote>, delays: seq<u32>)
    ensures var store := InitNvs(first, eraseOk, second, flash);
      started == store.Some?
      && (started ==>
            var readable := OpenReadOnly(store.value, namespaceOpens);
            var b := BootSpec(Radio(false, events, [], 0), readable, scan);
            apMode == b.apMode && serverRunning == apMode
            && crypto == CryptoPrice.ReadSetting(readable, KEY_CRYPTO, CryptoPrice.CRYPTO_BUF_SIZE, CryptoPrice.DEFAULT_CRYPTO)
            && currency == CryptoPrice.ReadSetting(readable, KEY_CURRENCY, CryptoPrice.CURRENCY_BUF_SIZE, CryptoPrice.DEFAULT_CURRENCY)
            && shown == (if apMode then [] else Shown(crypto, currency, http, parse, cycles))
            && delays == (if apMode then [] else seq(cycles, _ => RefreshDelayMs(readable))))
      && (!started ==>
            !apMode && !serverRunning && crypto == CryptoPrice.DEFAULT_CRYPTO && currency == CryptoPrice.DEFAULT_CURRENCY
            && shown == [] && delays == [])
  {
    started, apMode, serverRunning, shown, delays := false, false, false, [], [];
    crypto, currency := CryptoPrice.DEFAULT_CRYPTO, CryptoPrice.DEFAULT_CURRENCY;
    var store := InitNvs(first, eraseOk, second, flash);
    if store.None? {
      return;
    }
    started := true;
    var readable := OpenReadOnly(store.value, namespaceOpens);
    apMode := BringUpWifi(readable, events, scan);
    serverRunning := apMode;
    var selection := new CryptoPrice.Selection();
    selection.Init(readable);
    crypto, currency := selection.crypto, selection.currency;
    if !apMode {
      var priceData := new CryptoPrice.PriceData(stale);
      shown, delays := RunStation(selection, priceData, readable, http, parse, cycles);
    }
  }

  // ---------------------------------------------------------------------
  // Across a restart

  /** A store the configuration service wrote never overruns either buffer,
      and reading it back gives the saved crypto and currency. */
  lemma InitReadsSavedSettings(store: Store, f: WebServer.FormData, crypto: string, currency: string)
    requires WebServer.Fits(f)
    ensures var saved := Some(WebServer.Persist(store, f));
      !CryptoPrice.OverrunsAsWritten(saved, KEY_CRYPTO, CryptoPrice.CRYPTO_BUF_SIZE) && !CryptoPrice.OverrunsAsWritten(saved, KEY_CURRENCY, CryptoPrice.CURRENCY_BUF_SIZE)
      && CryptoPrice.ReadSetting(saved, KEY_CRYPTO, CryptoPrice.CRYPTO_BUF_SIZE, crypto) == f.crypto
      && CryptoPrice.ReadSetting(saved, KEY_CURRENCY, CryptoPrice.CURRENCY_BUF_SIZE, currency) == f.currency
  {
  }

  /** After the configuration service saved `f`, the next start connects
      with the saved network and fetches the saved pair. */
  lemma SavedConfigurationUsedAtNextBoot(store: Store, f: WebServer.FormData)
    requires WebServer.Fits(f)
    ensures var saved := Some(WebServer.Persist(store, f));
      Credentials(saved) == Some((f.ssid, f.password))
      && CryptoPrice.ReadSetting(saved, KEY_CRYPTO, CryptoPrice.CRYPTO_BUF_SIZE, CryptoPrice.DEFAULT_CRYPTO) == f.crypto
      && CryptoPrice.ReadSetting(saved, KEY_CURRENCY, CryptoPrice.CURRENCY_BUF_SIZE, CryptoPrice.DEFAULT_CURRENCY) == f.currency
      && CryptoPrice.RequestUrl(f.crypto, f.currency) == CryptoPrice.UrlTemplate(f.crypto, f.currency)
  {
    InitReadsSavedSettings(store, f, CryptoPrice.DEFAULT_CRYPTO, CryptoPrice.DEFAULT_CURRENCY);
    CryptoPrice.RequestUrlComplete(f.crypto, f.currency);
  }
}
