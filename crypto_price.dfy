/** The quote module (src/crypto_price.c): the selected crypto and currency
    with their defaults and the override from the store, the request URL,
    and the rule that decides whether a fetch produced a quote.

    The HTTP exchange is an oracle from URL to response, and `cJSON_Parse`
    one from text to an optional JSON value. A JSON object is its members in
    document order, because `cJSON_GetObjectItem` returns the first member
    whose name equals the key ignoring ASCII case. Numbers are kept as
    reals; the `float` fields of `crypto_price_t` are not modelled. */
module CryptoPrice {
  import opened CLib
  import opened Settings

  /** `char selected_crypto[10]`, `char selected_currency[4]`. */
  const CRYPTO_BUF_SIZE: nat := 10
  const CURRENCY_BUF_SIZE: nat := 4
  /** `char symbol[10]` of `crypto_price_t`. */
  const SYMBOL_SIZE: nat := 10
  /** `char url[256]`. */
  const URL_SIZE: nat := 256
  /** `malloc(1024)` for the response. */
  const RESPONSE_BUFFER_SIZE: nat := 1024

  const DEFAULT_CRYPTO: string := "BTC"
  const DEFAULT_CURRENCY: string := "USD"
  const CHANGE_KEY: string := "24h_change"

  const URL_PREFIX: string := "https://api.coingecko.com/api/v3/simple/price?ids="
  const URL_MIDDLE: string := "&vs_currencies="
  const URL_SUFFIX: string := "&include_24h_change=true"

  // ---------------------------------------------------------------------
  // JSON values and member lookup

  datatype Json =
    | Object(members: seq<Member>)
    | Array(items: seq<Json>)
    | Number(value: real)
    | Text(text: string)
    | Bool(b: bool)
    | Null

  datatype Member = Member(name: string, value: Json)

  /** `tolower` in the C locale. */
  function ToLower(c: char): char {
    if 'A' <= c <= 'Z' then (c as int + 32) as char else c
  }

  /** The `case_insensitive_strcmp` of cJSON returning 0. */
  predicate EqualsIgnoreCase(a: string, b: string) {
    |a| == |b| && forall i :: 0 <= i < |a| ==> ToLower(a[i]) == ToLower(b[i])
  }

  /** The index of the first member whose name matches `key`. */
  function FindMember(ms: seq<Member>, key: string): (r: Option<nat>)
    ensures r.Some? ==> r.value < |ms| && EqualsIgnoreCase(ms[r.value].name, key)
    ensures r.Some? ==> forall j :: 0 <= j < r.value ==> !EqualsIgnoreCase(ms[j].name, key)
    ensures r.None? ==> forall j :: 0 <= j < |ms| ==> !EqualsIgnoreCase(ms[j].name, key)
  {
    if ms == [] then None
    else if EqualsIgnoreCase(ms[0].name, key) then Some(0)
    else match FindMember(ms[1..], key)
      case None => None
      case Some(i) => Some(i + 1)
  }

  /** `cJSON_GetObjectItem`: only an object has named members. */
  function GetObjectItem(j: Json, key: string): Option<Json> {
    if !j.Object? then None
    else match FindMember(j.members, key)
      case None => None
      case Some(i) => Some(j.members[i].value)
  }

  /** `valuedouble`: 0 for anything but a number. */
  function ValueDouble(j: Json): real {
    if j.Number? then j.value else 0.0
  }

  lemma EqualsIgnoreCaseTrans(a: string, b: string, c: string)
    requires EqualsIgnoreCase(a, b) && EqualsIgnoreCase(b, c)
    ensures EqualsIgnoreCase(a, c)
  {
  }

  /** Lookup ignores case: keys that differ only in ASCII case find the same
      member. */
  lemma {:induction false} FindMemberIgnoresCase(ms: seq<Member>, key: string, key': string)
    requires EqualsIgnoreCase(key, key')
    ensures FindMember(ms, key) == FindMember(ms, key')
  {
    if ms != [] {
      assert EqualsIgnoreCase(ms[0].name, key) <==> EqualsIgnoreCase(ms[0].name, key');
      if !EqualsIgnoreCase(ms[0].name, key) {
        FindMemberIgnoresCase(ms[1..], key, key');
      }
    }
  }

  lemma GetObjectItemIgnoresCase(j: Json, key: string, key': string)
    requires EqualsIgnoreCase(key, key')
    ensures GetObjectItem(j, key) == GetObjectItem(j, key')
  {
    if j.Object? {
      FindMemberIgnoresCase(j.members, key, key');
    }
  }

  // ---------------------------------------------------------------------
  // Quotes and the success rule

  /** `crypto_price_t`: the C string in `symbol`, the price and the change. */
  datatype Quote = Quote(symbol: string, price: real, change24h: real)

  /** What the HTTP exchange gives: whether `esp_http_client_perform`
      succeeded, whether `esp_http_client_read` fails, and the body. */
  datatype HttpResponse = HttpResponse(performOk: bool, readFails: bool, body: string)

  /** The value `esp_http_client_read(client, buffer, max)` returns. */
  function ReadLength(resp: HttpResponse, max: nat): (n: int)
    ensures n <= max
    ensures n > 0 <==> !resp.readFails && resp.body != [] && max > 0
  {
    if resp.readFails then -1 else Min(|resp.body|, max)
  }

  /** As written, the response is read with the whole buffer as the limit. */
  const READ_LIMIT_AS_WRITTEN: nat := RESPONSE_BUFFER_SIZE
  /** The limit that leaves room for the terminator. */
  const READ_LIMIT: nat := RESPONSE_BUFFER_SIZE - 1

  /** As written, a response of 1024 bytes or more makes the terminator
      write `response_buffer[1024]`, one past the end of the allocation. */
  lemma ResponseTerminatorOverrunWitness()
    ensures var resp := HttpResponse(true, false, seq(RESPONSE_BUFFER_SIZE, _ => '0'));
      ReadLength(resp, READ_LIMIT_AS_WRITTEN) == RESPONSE_BUFFER_SIZE
  {
  }

  /** With the corrected limit the terminator index is inside the buffer. */
  lemma ResponseTerminatorInBounds(resp: HttpResponse)
    ensures ReadLength(resp, READ_LIMIT) < RESPONSE_BUFFER_SIZE
  {
  }

  /** The text `cJSON_Parse` sees: the C string of what was read. */
  function ResponseText(resp: HttpResponse): string
    requires ReadLength(resp, READ_LIMIT) > 0
  {
    CString(resp.body[..ReadLength(resp, READ_LIMIT)])
  }

  /** The quote a parsed response carries for the selected pair: the object
      under the crypto, and in it both the currency and `24h_change`. */
  function Extract(root: Json, crypto: string, currency: string): (q: Option<Quote>)
    ensures q.Some? ==> GetObjectItem(root, crypto).Some?
    ensures q.Some? ==> var obj := GetObjectItem(root, crypto).value;
      GetObjectItem(obj, currency).Some? && GetObjectItem(obj, CHANGE_KEY).Some?
      && q.value == Quote(StrNCopy(crypto, SYMBOL_SIZE - 1), ValueDouble(GetObjectItem(obj, currency).value),
                          ValueDouble(GetObjectItem(obj, CHANGE_KEY).value))
    ensures GetObjectItem(root, crypto).Some? ==>
      var obj := GetObjectItem(root, crypto).value;
      (GetObjectItem(obj, currency).Some? && GetObjectItem(obj, CHANGE_KEY).Some? ==> q.Some?)
  {
    match GetObjectItem(root, crypto)
    case None => None
    case Some(obj) =>
      match (GetObjectItem(obj, currency), GetObjectItem(obj, CHANGE_KEY))
      case (Some(price), Some(change)) =>
        Some(Quote(StrNCopy(crypto, SYMBOL_SIZE - 1), ValueDouble(price), ValueDouble(change)))
      case _ => None
  }

  /** `fetch_crypto_price`: a quote exactly when the transport succeeds, the
      read returns bytes, the text parses and `Extract` finds the fields. */
  function FetchSpec(crypto: string, currency: string, resp: HttpResponse, parse: string -> Option<Json>): (q: Option<Quote>)
    ensures q.Some? <==>
              (resp.performOk && ReadLength(resp, READ_LIMIT) > 0 && parse(ResponseText(resp)).Some?
               && Extract(parse(ResponseText(resp)).value, crypto, currency).Some?)
    ensures q.Some? ==> q == Extract(parse(ResponseText(resp)).value, crypto, currency)
  {
    if !resp.performOk || ReadLength(resp, READ_LIMIT) <= 0 then None
    else match parse(ResponseText(resp))
      case None => None
      case Some(root) => Extract(root, crypto, currency)
  }

  /** The response shape the price service sends for one pair. */
  function PriceObject(crypto: string, currency: string, price: real, change: real): Json {
    Object([Member(crypto, Object([Member(currency, Number(price)), Member(CHANGE_KEY, Number(change))]))])
  }

  /** The service's answer for the selected pair gives its price and change,
      whatever the case of the keys it uses. */
  lemma ExtractOfPriceObject(crypto: string, currency: string, key: string, key': string, price: real, change: real)
    requires EqualsIgnoreCase(key, crypto) && EqualsIgnoreCase(key', currency)
    requires !EqualsIgnoreCase(CHANGE_KEY, currency)
    ensures Extract(PriceObject(key, key', price, change), crypto, currency)
      == Some(Quote(StrNCopy(crypto, SYMBOL_SIZE - 1), price, change))
  {
    var inner := [Member(key', Number(price)), Member(CHANGE_KEY, Number(change))];
    assert EqualsIgnoreCase(CHANGE_KEY, CHANGE_KEY);
    assert FindMember(inner, currency) == Some(0);
    assert !EqualsIgnoreCase(key', CHANGE_KEY) by {
      if EqualsIgnoreCase(key', CHANGE_KEY) {
        assert EqualsIgnoreCase(CHANGE_KEY, key');
        EqualsIgnoreCaseTrans(CHANGE_KEY, key', currency);
      }
    }
    assert inner[1..] == [Member(CHANGE_KEY, Number(change))];
    assert FindMember(inner, CHANGE_KEY) == Some(1);
  }

  /** Without `24h_change` under the crypto there is no quote, whatever the
      price says. */
  lemma NoChangeNoQuote(root: Json, crypto: string, currency: string)
    requires GetObjectItem(root, crypto).Some? && GetObjectItem(GetObjectItem(root, crypto).value, CHANGE_KEY).None?
    ensures Extract(root, crypto, currency).None?
  {
  }

  // ---------------------------------------------------------------------
  // The request URL

  /** The URL before `snprintf` bounds it. */
  function UrlTemplate(crypto: string, currency: string): string {
    URL_PREFIX + crypto + URL_MIDDLE + currency + URL_SUFFIX
  }

  /** `snprintf(url, 256, ...)`: at most 255 characters. */
  function RequestUrl(crypto: string, currency: string): (url: string)
    ensures |url| < URL_SIZE && url <= UrlTemplate(crypto, currency)
  {
    Truncate(UrlTemplate(crypto, currency), URL_SIZE - 1)
  }

  /** Settings that fit their buffers are never cut off. */
  lemma RequestUrlComplete(crypto: string, currency: string)
    requires |crypto| < CRYPTO_BUF_SIZE && |currency| < CURRENCY_BUF_SIZE
    ensures RequestUrl(crypto, currency) == UrlTemplate(crypto, currency)
    ensures |RequestUrl(crypto, currency)| <= |URL_PREFIX| + |URL_MIDDLE| + |URL_SUFFIX| + 12
  {
  }

  /** The URL names the pair it was built from: two '&'-free pairs that give
      the same URL are the same pair. */
  lemma RequestUrlInjective(c1: string, u1: string, c2: string, u2: string)
    requires |c1| < CRYPTO_BUF_SIZE && |u1| < CURRENCY_BUF_SIZE && |c2| < CRYPTO_BUF_SIZE && |u2| < CURRENCY_BUF_SIZE
    requires '&' !in c1 && '&' !in u1 && '&' !in c2 && '&' !in u2
    requires RequestUrl(c1, u1) == RequestUrl(c2, u2)
    ensures c1 == c2 && u1 == u2
  {
    RequestUrlComplete(c1, u1);
    RequestUrlComplete(c2, u2);
    TemplateInjective(URL_PREFIX, URL_MIDDLE, URL_SUFFIX, c1, u1, c2, u2);
  }

  lemma TemplateInjective(pre: string, mid: string, suf: string, c1: string, u1: string, c2: string, u2: string)
    requires mid != [] && mid[0] == '&' && suf != [] && suf[0] == '&'
    requires '&' !in c1 && '&' !in u1 && '&' !in c2 && '&' !in u2
    requires pre + c1 + mid + u1 + suf == pre + c2 + mid + u2 + suf
    ensures c1 == c2 && u1 == u2
  {
    var t1, t2 := pre + c1 + mid + u1 + suf, pre + c2 + mid + u2 + suf;
    var p := |pre|;
    assert t1[p..] == c1 + mid + (u1 + suf);
    assert t2[p..] == c2 + mid + (u2 + suf);
    SplitAtAmpersand(c1, u1 + suf, c2, u2 + suf, mid);
    assert u1 + suf + [] == u2 + suf + [];
    SplitAtAmpersand(u1, [], u2, [], suf);
  }

  /** A '&'-free string in front of a separator starting with '&' is
      recovered from the concatenation. */
  lemma SplitAtAmpersand(a: string, x: string, b: string, y: string, sep: string)
    requires '&' !in a && '&' !in b && sep != [] && sep[0] == '&'
    requires a + sep + x == b + sep + y
    ensures a == b && x == y
  {
    var s, t := a + sep + x, b + sep + y;
    assert s[..|a|] == a && s[|a|] == '&';
    IndexOfAt(s, '&', |a|);
    assert t[..|b|] == b && t[|b|] == '&';
    IndexOfAt(t, '&', |b|);
    assert a == s[..|a|] && b == t[..|b|];
    assert x == s[|a| + |sep|..] && y == t[|b| + |sep|..];
  }

  // ---------------------------------------------------------------------
  // The settings read at start-up

  /** One override as corrected: the stored string replaces the current one
      only when it fits the buffer with its terminator. */
  function ReadSetting(store: Option<Store>, key: string, size: nat, current: string): (r: string)
    ensures store.Some? && GetStr(store.value, key, size).Some? ==> r == GetStr(store.value, key, size).value
    ensures !(store.Some? && GetStr(store.value, key, size).Some?) ==> r == current
    ensures |current| < size ==> |r| < size
  {
    match store
    case None => current
    case Some(s) =>
      match GetStr(s, key, size)
      case None => current
      case Some(text) => text
  }

  /** As written the size query is followed by a read of the whole string
      into the buffer: the number of bytes written, terminator included,
      whenever the key holds a string. */
  function BytesWrittenAsWritten(store: Option<Store>, key: string): Option<nat> {
    if store.Some? && key in store.value && store.value[key].Str? then Some(|store.value[key].text| + 1) else None
  }

  predicate OverrunsAsWritten(store: Option<Store>, key: string, size: nat) {
    BytesWrittenAsWritten(store, key).Some? && BytesWrittenAsWritten(store, key).value > size
  }

  /** A 12-character id such as "bitcoin-cash" writes 13 bytes into
      `selected_crypto[10]`. */
  lemma InitOverrunWitness()
    ensures OverrunsAsWritten(Some(map[KEY_CRYPTO := Str("bitcoin-cash")]), KEY_CRYPTO, CRYPTO_BUF_SIZE)
  {
  }

  // ---------------------------------------------------------------------
  // The module's state

  /** `crypto_price_t`, written through the pointer `fetch_crypto_price`
      receives. */
  class PriceData {
    var symbol: string
    var price: real
    var change24h: real

    function Value(): Quote
      reads this
    {
      Quote(symbol, price, change24h)
    }

    constructor (q: Quote)
      ensures Value() == q
    {
      symbol, price, change24h := q.symbol, q.price, q.change24h;
    }
  }

  class Selection {
    /** `selected_crypto` and `selected_currency`. */
    var crypto: string
    var currency: string

    ghost predicate Valid()
      reads this
    {
      |crypto| < CRYPTO_BUF_SIZE && |currency| < CURRENCY_BUF_SIZE
    }

    /** The initialisers "BTC" and "USD". */
    constructor ()
      ensures crypto == DEFAULT_CRYPTO && currency == DEFAULT_CURRENCY && Valid()
    {
      crypto, currency := DEFAULT_CRYPTO, DEFAULT_CURRENCY;
    }

    /** `init_crypto_price` with the checked reads; `store` is None when the
        store does not open. */
    method Init(store: Option<Store>)
      requires Valid()
      modifies this
      ensures crypto == ReadSetting(store, KEY_CRYPTO, CRYPTO_BUF_SIZE, old(crypto))
      ensures currency == ReadSetting(store, KEY_CURRENCY, CURRENCY_BUF_SIZE, old(currency))
      ensures Valid()
    {
      if store.Some? {
        var c := GetStr(store.value, KEY_CRYPTO, CRYPTO_BUF_SIZE);
        if c.Some? {
          crypto := c.value;
        }
        var u := GetStr(store.value, KEY_CURRENCY, CURRENCY_BUF_SIZE);
        if u.Some? {
          currency := u.value;
        }
      }
    }

    /** `esp_http_client_read` into the response buffer, at most `max` bytes. */
    static method ReadResponse(buffer: array<char>, resp: HttpResponse, max: nat) returns (len: int)
      requires max <= buffer.Length
      modifies buffer
      ensures len == ReadLength(resp, max)
      ensures len > 0 ==> buffer[..len] == resp.body[..len]
    {
      len := ReadLength(resp, max);
      if len > 0 {
        var i := 0;
        while i < len
          invariant 0 <= i <= len
          invariant buffer[..i] == resp.body[..i]
        {
          buffer[i] := resp.body[i];
          i := i + 1;
          assert buffer[..i] == buffer[..i - 1] + [buffer[i - 1]];
        }
      }
    }

    /** `fetch_crypto_price(price_data)`: the quote is written only on
        success; otherwise `price_data` is left as it was. */
    method Fetch(priceData: PriceData, http: string -> HttpResponse, parse: string -> Option<Json>) returns (success: bool)
      modifies priceData
      ensures var q := FetchSpec(crypto, currency, http(RequestUrl(crypto, currency)), parse);
        success == q.Some? && priceData.Value() == (if q.Some? then q.value else old(priceData.Value()))
    {
      var url := RequestUrl(crypto, currency);
      var resp := http(url);
      success := false;
      if resp.performOk {
        var buffer := new char[RESPONSE_BUFFER_SIZE];
        var len := ReadResponse(buffer, resp, READ_LIMIT);
        if len > 0 {
          buffer[len] := NUL;
          assert buffer[..len + 1] == resp.body[..len] + [NUL];
          CStringAppendNul(resp.body[..len]);
          var root := parse(CString(buffer[..len + 1]));
          if root.Some? {
            var item := GetObjectItem(root.value, crypto);
            if item.Some? {
              var price := GetObjectItem(item.value, currency);
              var change := GetObjectItem(item.value, CHANGE_KEY);
              if price.Some? && change.Some? {
                priceData.symbol := StrNCopy(crypto, SYMBOL_SIZE - 1);
                priceData.price := ValueDouble(price.value);
                priceData.change24h := ValueDouble(change.value);
                success := true;
              }
            }
          }
        }
      }
    }
  }
}
