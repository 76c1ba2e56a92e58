/** The configuration service (src/webserver.c): the POST /save handler and
    the application/x-www-form-urlencoded parser it feeds. The body is split
    on '&' as `strtok_r` does, each token at its first '=', the value decoded
    ('+' is a space, "%XY" the byte `strtol` makes of "XY") and copied, with
    truncation, into the fixed-size fields of `form_data_t`. */
module WebServer {
  import opened CLib
  import opened Settings

  /** `char buf[1024]` in `save_handler`. */
  const BUF_SIZE: nat := 1024
  /** `char decoded_value[64]` in `parse_form_data`. */
  const DECODED_SIZE: nat := 64
  /** The array sizes of `form_data_t`. */
  const SSID_SIZE: nat := 32
  const PASSWORD_SIZE: nat := 64
  const CRYPTO_SIZE: nat := 10
  const CURRENCY_SIZE: nat := 4

  /** `form_data_t`: each text field is the C string its array holds. */
  datatype FormData = FormData(ssid: string, password: string, crypto: string, currency: string, interval: int)

  /** `form_data_t form_data = {0}`. */
  const EMPTY_FORM: FormData := FormData("", "", "", "", 0)

  /** Every text field fits its array together with its terminator. */
  predicate Fits(f: FormData) {
    |f.ssid| < SSID_SIZE && |f.password| < PASSWORD_SIZE
    && |f.crypto| < CRYPTO_SIZE && |f.currency| < CURRENCY_SIZE
  }

  // ---------------------------------------------------------------------
  // Percent decoding

  predicate IsHexDigit(c: char) { '0' <= c <= '9' || 'a' <= c <= 'f' || 'A' <= c <= 'F' }

  function HexValue(c: char): (v: nat)
    requires IsHexDigit(c)
    ensures v < 16
  {
    if c <= '9' then c as int - '0' as int
    else if c >= 'a' then c as int - 'a' as int + 10
    else c as int - 'A' as int + 10
  }

  function HexValueOr0(c: char): (v: nat)
    ensures v < 16
  {
    if IsHexDigit(c) then HexValue(c) else 0
  }

  /** `strtol(hex, NULL, 16)` on the two-character string `[c1, c2]`: white
      space or a sign may stand before one digit, a "0x" prefix reads as 0,
      and parsing stops at the first character that is not a hex digit. */
  function StrtolHex(c1: char, c2: char): (r: int)
    ensures -15 <= r <= 255
    ensures IsHexDigit(c1) && IsHexDigit(c2) ==> r == 16 * HexValue(c1) + HexValue(c2)
    ensures !IsHexDigit(c1) && !IsSpace(c1) && c1 != '+' && c1 != '-' ==> r == 0
  {
    if IsSpace(c1) || c1 == '+' then HexValueOr0(c2)
    else if c1 == '-' then -(HexValueOr0(c2) as int)
    else if IsHexDigit(c1) then (if IsHexDigit(c2) then 16 * HexValue(c1) + HexValue(c2) else HexValue(c1))
    else 0
  }

  /** The byte stored when the `long` from `strtol` is assigned to a `char`. */
  function EscapeByte(c1: char, c2: char): (b: char)
    ensures b as int < 256
  {
    (StrtolHex(c1, c2) % 256) as char
  }

  /** The decoding the loop of `parse_form_data` performs, without a bound on
      its output: '%' followed by two more characters is one byte, '+' is a
      space, anything else (a '%' near the end included) is itself. */
  function UrlDecode(v: string): (r: string)
    ensures |r| <= |v|
    ensures v != [] ==> r != []
  {
    if v == [] then []
    else if v[0] == '%' && |v| >= 3 then [EscapeByte(v[1], v[2])] + UrlDecode(v[3..])
    else if v[0] == '+' then [' '] + UrlDecode(v[1..])
    else [v[0]] + UrlDecode(v[1..])
  }

  /** The decoded value; the model writes at most `DECODED_SIZE - 1` bytes so
      that `decoded_value` keeps its terminator (the source writes without a
      check; see the finding on this loop). */
  method DecodeValue(value: string) returns (decoded: string)
    ensures decoded == Truncate(UrlDecode(value), DECODED_SIZE - 1)
  {
    var buf := new char[DECODED_SIZE](_ => NUL);
    var len := 0;
    var i := 0;
    while i < |value| && len < DECODED_SIZE - 1
      invariant 0 <= i <= |value| && 0 <= len <= DECODED_SIZE - 1
      invariant buf[..len] + UrlDecode(value[i..]) == UrlDecode(value)
    {
      var c, step;
      if value[i] == '%' && i + 2 < |value| {
        c, step := EscapeByte(value[i + 1], value[i + 2]), 3;
      } else if value[i] == '+' {
        c, step := ' ', 1;
      } else {
        c, step := value[i], 1;
      }
      assert UrlDecode(value[i..]) == [c] + UrlDecode(value[i + step..]) by { UrlDecodeAt(value, i); }
      ghost var done := buf[..len];
      buf[len] := c;
      assert buf[..len + 1] == done + [c];
      Extend(done, c, UrlDecode(value[i + step..]), UrlDecode(value[i..]), UrlDecode(value));
      len, i := len + 1, i + step;
    }
    decoded := buf[..len];
    DecodedPrefix(decoded, UrlDecode(value[i..]), UrlDecode(value), i == |value|);
  }

  /** One step of the decoding loop at index `i`. */
  lemma UrlDecodeAt(v: string, i: nat)
    requires i < |v|
    ensures v[i] == '%' && i + 2 < |v| ==> UrlDecode(v[i..]) == [EscapeByte(v[i + 1], v[i + 2])] + UrlDecode(v[i + 3..])
    ensures !(v[i] == '%' && i + 2 < |v|) && v[i] == '+' ==> UrlDecode(v[i..]) == [' '] + UrlDecode(v[i + 1..])
    ensures !(v[i] == '%' && i + 2 < |v|) && v[i] != '+' ==> UrlDecode(v[i..]) == [v[i]] + UrlDecode(v[i + 1..])
  {
    assert v[i..][1..] == v[i + 1..];
    if i + 2 < |v| { assert v[i..][3..] == v[i + 3..]; }
  }

  lemma Extend(done: string, c: char, after: string, at: string, all: string)
    requires done + at == all && at == [c] + after
    ensures (done + [c]) + after == all
  {
  }

  lemma DecodedPrefix(done: string, rest: string, all: string, finished: bool)
    requires done + rest == all && |done| <= DECODED_SIZE - 1
    requires finished ==> rest == []
    requires !finished ==> |done| == DECODED_SIZE - 1
    ensures done == Truncate(all, DECODED_SIZE - 1)
  {
    if !finished { assert all[..|done|] == done; }
  }

  /** Reading `decoded_value` as a C string: at the `ssid`, `password`,
      `crypto` or `currency` key it is copied by `strncpy` with the field's
      size less one, at `interval` it goes through `atoi`. */
  function StoreField(form: FormData, key: string, decoded: string): (r: FormData)
    ensures key !in FORM_KEYS ==> r == form
  {
    if key == "ssid" then form.(ssid := StrNCopy(decoded, SSID_SIZE - 1))
    else if key == "password" then form.(password := StrNCopy(decoded, PASSWORD_SIZE - 1))
    else if key == "crypto" then form.(crypto := StrNCopy(decoded, CRYPTO_SIZE - 1))
    else if key == "currency" then form.(currency := StrNCopy(decoded, CURRENCY_SIZE - 1))
    else if key == "interval" then form.(interval := Atoi(CString(decoded)))
    else form
  }

  const FORM_KEYS: seq<string> := ["ssid", "password", "crypto", "currency", "interval"]

  // ---------------------------------------------------------------------
  // Tokens

  /** The length of the token at the start of `s`: up to the first '&'. */
  function TokenEnd(s: string): (n: nat)
    ensures n <= |s| && '&' !in s[..n]
    ensures n < |s| ==> s[n] == '&'
  {
    if s == [] || s[0] == '&' then 0 else 1 + TokenEnd(s[1..])
  }

  lemma TokenEndUnique(s: string, k: nat)
    requires k <= |s| && '&' !in s[..k] && (k < |s| ==> s[k] == '&')
    ensures TokenEnd(s) == k
  {
  }

  /** The successive results of `strtok_r(rest, "&", &rest)`: the maximal
      runs of characters other than '&', empty runs skipped. */
  function Tokens(s: string): (r: seq<string>)
    ensures forall j :: 0 <= j < |r| ==> r[j] != [] && '&' !in r[j]
    decreases |s|
  {
    if s == [] then []
    else if s[0] == '&' then Tokens(s[1..])
    else var n := TokenEnd(s); [s[..n]] + Tokens(s[n..])
  }

  lemma TokensSkip(s: string, i: nat)
    requires i < |s| && s[i] == '&'
    ensures Tokens(s[i..]) == Tokens(s[i + 1..])
  {
    assert s[i..][1..] == s[i + 1..];
  }

  lemma TokensAt(s: string, start: nat, end: nat)
    requires start < end <= |s| && '&' !in s[start..end] && (end < |s| ==> s[end] == '&')
    ensures Tokens(s[start..]) == [s[start..end]] + Tokens(s[end..])
  {
    ghost var t := s[start..];
    assert t[..end - start] == s[start..end];
    assert t[0] == s[start..end][0];
    TokenEndUnique(t, end - start);
    assert t[end - start..] == s[end..];
  }

  /** The delimiter skipping at the start of `strtok_r`. */
  method SkipDelimiters(s: string, rest: nat) returns (start: nat)
    requires rest <= |s|
    ensures rest <= start <= |s| && (start < |s| ==> s[start] != '&')
    ensures Tokens(s[rest..]) == Tokens(s[start..])
  {
    start := rest;
    while start < |s| && s[start] == '&'
      invariant rest <= start <= |s|
      invariant Tokens(s[rest..]) == Tokens(s[start..])
    {
      TokensSkip(s, start);
      start := start + 1;
    }
  }

  /** The scan of `strtok_r` for the end of a token starting at `start`. */
  method ScanToken(s: string, start: nat) returns (end: nat)
    requires start < |s| && s[start] != '&'
    ensures start < end <= |s| && '&' !in s[start..end] && (end < |s| ==> s[end] == '&')
  {
    end := start + 1;
    assert s[start..end] == [s[start]];
    while end < |s| && s[end] != '&'
      invariant start < end <= |s|
      invariant '&' !in s[start..end]
    {
      assert s[start..end + 1] == s[start..end] + [s[end]];
      end := end + 1;
    }
  }

  /** One call of `strtok_r(rest, "&", &rest)` on `s[rest..]`: the token is
      `s[start..end]` and the next call starts at `next`. */
  method NextToken(s: string, rest: nat) returns (found: bool, start: nat, end: nat, next: nat)
    requires rest <= |s|
    ensures rest <= start <= end <= next <= |s|
    ensures found ==> start < end
    ensures found ==> Tokens(s[rest..]) == [s[start..end]] + Tokens(s[next..])
    ensures !found ==> Tokens(s[rest..]) == []
  {
    start := SkipDelimiters(s, rest);
    if start == |s| {
      assert Tokens(s[start..]) == [] by { assert s[start..] == []; }
      return false, start, start, start;
    }
    end := ScanToken(s, start);
    found := true;
    next := if end < |s| then end + 1 else end;
    TokensNext(s, start, end, next);
  }

  /** A token ends at the terminator or at an '&', which the next call
      skips. */
  lemma TokensNext(s: string, start: nat, end: nat, next: nat)
    requires start < end <= |s| && '&' !in s[start..end] && (end < |s| ==> s[end] == '&')
    requires next == if end < |s| then end + 1 else end
    ensures Tokens(s[start..]) == [s[start..end]] + Tokens(s[next..])
  {
    TokensAt(s, start, end);
    if end < |s| {
      TokensSkip(s, end);
    }
  }

  /** The key of a token (before its first '='), or None when it has none. */
  function KeyOf(token: string): Option<string> {
    match IndexOf(token, '=')
    case None => None
    case Some(eq) => Some(token[..eq])
  }

  /** The decoded value of a token that has an '='. */
  function DecodedOf(token: string): string
    requires KeyOf(token).Some?
  {
    var eq := IndexOf(token, '=').value;
    Truncate(UrlDecode(token[eq + 1..]), DECODED_SIZE - 1)
  }

  /** What one token does to the form: a token without '=' or with a key
      other than the five leaves it unchanged. */
  function ApplyToken(form: FormData, token: string): (r: FormData)
    ensures KeyOf(token).None? ==> r == form
    ensures KeyOf(token).Some? && KeyOf(token).value !in FORM_KEYS ==> r == form
    ensures Fits(form) ==> Fits(r)
  {
    match IndexOf(token, '=')
    case None => form
    case Some(eq) => StoreField(form, token[..eq], DecodedOf(token))
  }

  function ApplyTokens(form: FormData, tokens: seq<string>): FormData
    decreases |tokens|
  {
    if tokens == [] then form else ApplyTokens(ApplyToken(form, tokens[0]), tokens[1..])
  }

  /** `parse_form_data` on a zeroed `form_data_t`. */
  function ParseSpec(body: string): (f: FormData)
    ensures Fits(f)
  {
    ApplyTokensFits(EMPTY_FORM, Tokens(body));
    ApplyTokens(EMPTY_FORM, Tokens(body))
  }

  lemma {:induction false} ApplyTokensFits(form: FormData, tokens: seq<string>)
    requires Fits(form)
    ensures Fits(ApplyTokens(form, tokens))
    decreases |tokens|
  {
    if tokens != [] {
      ApplyTokensFits(ApplyToken(form, tokens[0]), tokens[1..]);
    }
  }

  /** One iteration of the loop of `parse_form_data`: `strchr` for '=', the
      decoding loop, then the key dispatch. */
  method HandleToken(form: FormData, token: string) returns (r: FormData)
    ensures r == ApplyToken(form, token)
  {
    var eq := 0;
    while eq < |token| && token[eq] != '='
      invariant eq <= |token| && '=' !in token[..eq]
    {
      assert token[..eq + 1] == token[..eq] + [token[eq]];
      eq := eq + 1;
    }
    var found := IndexOf(token, '=');
    if eq == |token| {
      assert token[..eq] == token;
      return form;
    }
    assert found == Some(eq);
    var key := token[..eq];
    var decoded := DecodeValue(token[eq + 1..]);
    if key == "ssid" {
      r := form.(ssid := StrNCopy(decoded, SSID_SIZE - 1));
    } else if key == "password" {
      r := form.(password := StrNCopy(decoded, PASSWORD_SIZE - 1));
    } else if key == "crypto" {
      r := form.(crypto := StrNCopy(decoded, CRYPTO_SIZE - 1));
    } else if key == "currency" {
      r := form.(currency := StrNCopy(decoded, CURRENCY_SIZE - 1));
    } else if key == "interval" {
      r := form.(interval := Atoi(CString(decoded)));
    } else {
      r := form;
    }
  }

  /** `parse_form_data(buf, ..., &form_data)` with `form_data` zeroed. */
  method ParseFormData(body: string) returns (form: FormData)
    ensures form == ParseSpec(body)
    ensures Fits(form)
  {
    form := EMPTY_FORM;
    assert body[0..] == body;
    var found, start, end, next := NextToken(body, 0);
    while found
      invariant found ==> start < end <= next <= |body|
      invariant found ==> ApplyTokens(form, [body[start..end]] + Tokens(body[next..])) == ParseSpec(body)
      invariant !found ==> form == ParseSpec(body)
      invariant next <= |body|
      invariant Fits(form)
      decreases |body| - next + (if found then 1 else 0)
    {
      ghost var rest := Tokens(body[next..]);
      assert ([body[start..end]] + rest)[1..] == rest;
      form := HandleToken(form, body[start..end]);
      var more, start', end', next' := NextToken(body, next);
      found := more;
      if more {
        start, end, next := start', end', next';
      }
    }
  }

  // ---------------------------------------------------------------------
  // The save handler

  /** What `httpd_req_recv` can deliver: an error, or the bytes the client
      sent (of which at most the requested number are copied). */
  datatype Recv = RecvError | RecvData(data: string)

  /** The value `httpd_req_recv(req, buf, remaining)` returns. */
  function ReceivedLength(recv: Recv, remaining: nat): (n: int)
    ensures n <= remaining
    ensures n > 0 <==> recv.RecvData? && recv.data != [] && remaining > 0
  {
    match recv
    case RecvError => -1
    case RecvData(data) => Min(|data|, remaining)
  }

  /** The length check of `save_handler` as written: `remaining > sizeof(buf)`
      rejects, so a 1024-byte body is let through. */
  predicate AcceptsLengthAsWritten(contentLen: nat) {
    !(contentLen > BUF_SIZE)
  }

  /** The length check the terminator write needs: one byte of `buf` must be
      left for `buf[ret] = '\0'`. */
  predicate AcceptsLength(contentLen: nat) {
    contentLen < BUF_SIZE
  }

  /** With the corrected check, `buf[ret]` is always inside the buffer. */
  lemma AcceptedBodyLeavesRoomForTerminator(contentLen: nat, recv: Recv)
    requires AcceptsLength(contentLen)
    ensures ReceivedLength(recv, contentLen) < BUF_SIZE
  {
  }

  /** As written, a 1024-byte body passes the check and `buf[ret]` is
      `buf[1024]`, one past the end of the buffer. */
  lemma BodyTerminatorOverrunWitness()
    ensures var recv := RecvData(seq(BUF_SIZE, _ => 'a'));
      AcceptsLengthAsWritten(BUF_SIZE) && ReceivedLength(recv, BUF_SIZE) == BUF_SIZE
      && !AcceptsLength(BUF_SIZE)
  {
  }

  /** How a POST /save ends. */
  datatype SaveOutcome =
    | ContentTooLong        // 500 "Content too long", nothing read
    | ReceiveFailed         // receive gave 0 or fewer bytes, no response
    | StoreUnavailable      // the store did not open: 500, no restart
    | Saved(form: FormData) // five keys written, confirmation, restart

  /** The observable steps of a save, in order. */
  datatype Step =
    | SetStr(key: string, text: string)
    | SetU32(key: string, number: u32)
    | Commit
    | Close
    | Respond(status: nat, message: string)
    | Delay(ms: nat)
    | Restart

  const SAVED_MESSAGE: string := "Configuration saved. Device will restart in 5 seconds..."
  const RESTART_DELAY_MS: nat := 5000

  /** The decision `save_handler` makes. */
  function SaveSpec(contentLen: nat, recv: Recv, storeOpens: bool): (o: SaveOutcome)
    ensures o.ContentTooLong? <==> contentLen >= BUF_SIZE
    ensures o.ReceiveFailed? <==> contentLen < BUF_SIZE && ReceivedLength(recv, contentLen) <= 0
    ensures o.StoreUnavailable? <==> contentLen < BUF_SIZE && ReceivedLength(recv, contentLen) > 0 && !storeOpens
    ensures o.Saved? ==>
      Fits(o.form) && o.form == ParseSpec(CString(recv.data[..ReceivedLength(recv, contentLen)]))
  {
    if !AcceptsLength(contentLen) then ContentTooLong
    else
      var n := ReceivedLength(recv, contentLen);
      if n <= 0 then ReceiveFailed
      else if !storeOpens then StoreUnavailable
      else Saved(ParseSpec(CString(recv.data[..n])))
  }

  /** The steps each outcome performs. */
  function StepsOf(o: SaveOutcome): seq<Step> {
    match o
    case ContentTooLong => [Respond(500, "Content too long")]
    case ReceiveFailed => []
    case StoreUnavailable => [Respond(500, "Failed to save configuration")]
    case Saved(f) =>
      [SetStr(KEY_SSID, f.ssid), SetStr(KEY_PASSWORD, f.password), SetStr(KEY_CRYPTO, f.crypto),
       SetStr(KEY_CURRENCY, f.currency), SetU32(KEY_INTERVAL, ToU32(f.interval)),
       Commit, Close, Respond(200, SAVED_MESSAGE), Delay(RESTART_DELAY_MS), Restart]
  }

  /** The store after the five writes of a save. */
  function Persist(store: Store, f: FormData): Store {
    store[KEY_SSID := Str(f.ssid)][KEY_PASSWORD := Str(f.password)][KEY_CRYPTO := Str(f.crypto)]
      [KEY_CURRENCY := Str(f.currency)][KEY_INTERVAL := U32(ToU32(f.interval))]
  }

  /** `httpd_req_recv(req, buf, remaining)`: copies what arrived, at most
      `remaining` bytes, into `buf`. */
  method Receive(buf: array<char>, recv: Recv, remaining: nat) returns (ret: int)
    requires remaining <= buf.Length
    modifies buf
    ensures ret == ReceivedLength(recv, remaining)
    ensures ret > 0 ==> buf[..ret] == recv.data[..ret]
  {
    ret := ReceivedLength(recv, remaining);
    if ret > 0 {
      var i := 0;
      while i < ret
        invariant 0 <= i <= ret
        invariant buf[..i] == recv.data[..i]
      {
        buf[i] := recv.data[i];
        i := i + 1;
        assert buf[..i] == buf[..i - 1] + [buf[i - 1]];
      }
    }
  }

  /** `save_handler`: length check, receive, parse, then either the five
      store writes, commit, confirmation and restart, or a 500 when the store
      does not open. The result of `nvs_commit` is not looked at. */
  method SaveHandler(nvs: Nvs, contentLen: nat, recv: Recv, storeOpens: bool)
    returns (outcome: SaveOutcome, steps: seq<Step>)
    modifies nvs
    ensures outcome == SaveSpec(contentLen, recv, storeOpens)
    ensures steps == StepsOf(outcome)
    ensures nvs.entries == if outcome.Saved? then Persist(old(nvs.entries), outcome.form) else old(nvs.entries)
  {
    if !AcceptsLength(contentLen) {
      return ContentTooLong, StepsOf(ContentTooLong);
    }
    var buf := new char[BUF_SIZE];
    var ret := Receive(buf, recv, contentLen);
    if ret <= 0 {
      return ReceiveFailed, [];
    }
    buf[ret] := NUL;
    CStringAppendNul(buf[..ret]);
    assert buf[..ret + 1] == buf[..ret] + [NUL];
    var form := ParseFormData(CString(buf[..ret + 1]));
    if !storeOpens {
      return StoreUnavailable, StepsOf(StoreUnavailable);
    }
    nvs.SetStr(KEY_SSID, form.ssid);
    nvs.SetStr(KEY_PASSWORD, form.password);
    nvs.SetStr(KEY_CRYPTO, form.crypto);
    nvs.SetStr(KEY_CURRENCY, form.currency);
    nvs.SetU32(KEY_INTERVAL, ToU32(form.interval));
    outcome := Saved(form);
    steps := StepsOf(outcome);
  }
}
