/** What the configuration service's parser and save handler promise, stated
    over the model in webserver.dfy: what a browser submits is what gets
    stored (truncated to the field sizes), the last of several tokens with one
    key decides its field, the examples of the form encoding, the overrun
    witnesses, and that what a save writes reads back through the typed
    store reads of the other components. */
module WebServerProperties {
  import opened CLib
  import opened Settings
  import opened WebServer

  // ---------------------------------------------------------------------
  // Decoding single values

  /** A value with no '%' and no '+' decodes to itself. */
  lemma {:induction false} UrlDecodePlain(v: string)
    requires '%' !in v && '+' !in v
    ensures UrlDecode(v) == v
  {
    if v != [] {
      assert '%' !in v[1..] && '+' !in v[1..] by {
        forall j | 0 <= j < |v[1..]| ensures v[1..][j] != '%' && v[1..][j] != '+' { assert v[1..][j] == v[j + 1]; }
      }
      UrlDecodePlain(v[1..]);
    }
  }

  /** A '%' less than two characters from the end is copied as it is. */
  lemma TrailingPercentIsLiteral(c: char)
    ensures UrlDecode("%") == "%"
    ensures UrlDecode(['%', c]) == ['%', if c == '+' then ' ' else c]
  {
    assert ['%', c][1..] == [c];
    assert UrlDecode([c]) == [if c == '+' then ' ' else c] by { assert [c][1..] == []; }
  }

  /** `password=a%2Bb+c` stores the password `a+b c`. */
  lemma ExampleEncodedPassword(body: string)
    requires body == "password=a%2Bb+c"
    ensures ParseSpec(body).password == "a+b c"
  {
    var s := "a+b c";
    EncodedPasswordBody(body, s);
    PasswordPair(EMPTY_FORM, s);
  }

  lemma EncodedPasswordBody(body: string, s: string)
    requires body == "password=a%2Bb+c" && s == "a+b c"
    ensures IsByteText(s) && ParseSpec(body) == ApplyToken(EMPTY_FORM, Pair("password", FormEncode(s)))
  {
    EncodeSample(s);
    var p := Pair("password", FormEncode(s));
    assert body == Join([p]);
    ParsePairs([p]);
    ApplyTokensCons(EMPTY_FORM, p, []);
  }

  lemma EncodeSample(s: string)
    requires s == "a+b c"
    ensures IsByteText(s) && FormEncode(s) == "a%2Bb+c"
  {
    assert FormEncode(s[5..]) == [];
    assert s[4..][0] == 'c' && s[4..][1..] == s[5..];
    assert FormEncode(s[4..]) == "c";
    assert s[3..][0] == ' ' && s[3..][1..] == s[4..];
    assert FormEncode(s[3..]) == "+c";
    assert s[2..][0] == 'b' && s[2..][1..] == s[3..];
    assert FormEncode(s[2..]) == "b+c";
    assert s[1..][0] == '+' && s[1..][1..] == s[2..];
    assert EncodeByte('+') == "%2B";
    assert FormEncode(s[1..]) == "%2Bb+c";
  }

  /** `crypto=BTC&interval=120` stores crypto `BTC` and interval 120 and
      leaves everything else as `form_data_t` was zeroed. */
  lemma ExampleCryptoAndInterval(body: string)
    requires body == "crypto=BTC&interval=120"
    ensures ParseSpec(body) == EMPTY_FORM.(crypto := "BTC", interval := 120)
  {
    var c, n := "BTC", 120;
    CryptoAndIntervalPairs(body, c, n);
    CryptoThenInterval(c, n);
    assert |c| == 3;
  }

  lemma CryptoThenInterval(c: string, n: nat)
    requires IsByteText(c) && |Decimal(n)| < DECODED_SIZE
    ensures ApplyTokens(EMPTY_FORM, [Pair("crypto", FormEncode(c)), Pair("interval", Decimal(n))])
         == EMPTY_FORM.(crypto := Truncate(c, CRYPTO_SIZE - 1), interval := n)
  {
    var p1, p2 := Pair("crypto", FormEncode(c)), Pair("interval", Decimal(n));
    var f1 := ApplyToken(EMPTY_FORM, p1);
    assert [p1, p2] == [p1] + [p2];
    ApplyTokensCons(EMPTY_FORM, p1, [p2]);
    ApplyTokensCons(f1, p2, []);
    CryptoPair(EMPTY_FORM, c);
    IntervalPair(f1, n);
  }

  lemma CryptoAndIntervalPairs(body: string, c: string, n: nat)
    requires body == "crypto=BTC&interval=120" && c == "BTC" && n == 120
    ensures IsByteText(c) && |Decimal(n)| < DECODED_SIZE
    ensures ParseSpec(body) == ApplyTokens(EMPTY_FORM, [Pair("crypto", FormEncode(c)), Pair("interval", Decimal(n))])
  {
    var p1, p2 := Pair("crypto", FormEncode(c)), Pair("interval", Decimal(n));
    PlainSample(c, n);
    JoinTwo(p1, p2);
    SampleBody(body, p1, p2);
    PairHasNoAmpersand("crypto", FormEncode(c));
    PairHasNoAmpersand("interval", Decimal(n));
    ParsePairs([p1, p2]);
  }

  lemma SampleBody(body: string, p1: string, p2: string)
    requires body == "crypto=BTC&interval=120" && p1 == "crypto" + "=" + "BTC" && p2 == "interval" + "=" + "120"
    ensures body == p1 + "&" + p2
  {
  }

  lemma PlainSample(c: string, n: nat)
    requires c == "BTC" && n == 120
    ensures IsByteText(c) && FormEncode(c) == "BTC" && Decimal(n) == "120"
  {
    assert FormEncode(c[3..]) == [];
    assert c[2..][0] == 'C' && c[2..][1..] == c[3..];
    assert FormEncode(c[2..]) == "C";
    assert c[1..][0] == 'T' && c[1..][1..] == c[2..];
    assert FormEncode(c[1..]) == "TC";
    assert c[0] == 'B';
    assert Decimal(1) == "1";
    assert Decimal(12) == "12";
    assert n / 10 == 12 && n % 10 == 0;
  }

  lemma JoinTwo(a: string, b: string)
    ensures Join([a, b]) == a + "&" + b
  {
    assert [a, b][1..] == [b];
  }

  // ---------------------------------------------------------------------
  // Bodies built from key=value pairs

  /** The token `key=value`. */
  function Pair(key: string, value: string): (t: string)
    ensures t != []
  {
    key + "=" + value
  }

  /** Tokens joined by single '&'s. */
  function Join(ts: seq<string>): string {
    if ts == [] then [] else if |ts| == 1 then ts[0] else ts[0] + "&" + Join(ts[1..])
  }

  lemma SingleToken(t: string)
    requires t != [] && '&' !in t
    ensures Tokens(t) == [t]
  {
    TokenEndUnique(t, |t|);
    assert t[..|t|] == t && t[|t|..] == [];
  }

  lemma TokensOfJoinStep(t: string, rest: string)
    requires t != [] && '&' !in t
    ensures Tokens(t + "&" + rest) == [t] + Tokens(rest)
  {
    var s := t + "&" + rest;
    assert s[..|t|] == t && s[|t|] == '&';
    TokenEndUnique(s, |t|);
    assert s[|t|..][1..] == rest;
  }

  /** Splitting a join of non-empty '&'-free tokens gives the tokens back. */
  lemma {:induction false} TokensOfJoin(ts: seq<string>)
    requires forall j :: 0 <= j < |ts| ==> ts[j] != [] && '&' !in ts[j]
    ensures Tokens(Join(ts)) == ts
  {
    if |ts| == 1 {
      SingleToken(ts[0]);
    } else if |ts| > 1 {
      TokensOfJoinStep(ts[0], Join(ts[1..]));
      TokensOfJoin(ts[1..]);
    }
  }

  lemma PairHasNoAmpersand(key: string, value: string)
    requires '&' !in key && '&' !in value
    ensures '&' !in Pair(key, value)
  {
    var t := Pair(key, value);
    forall i | 0 <= i < |t| ensures t[i] != '&' {
      if i < |key| { assert t[i] == key[i]; } else if i > |key| { assert t[i] == value[i - |key| - 1]; }
    }
  }

  /** A body of pairs parses as the pairs applied in order. */
  lemma ParsePairs(ps: seq<string>)
    requires forall j :: 0 <= j < |ps| ==> ps[j] != [] && '&' !in ps[j]
    ensures ParseSpec(Join(ps)) == ApplyTokens(EMPTY_FORM, ps)
  {
    TokensOfJoin(ps);
  }

  /** The five field names are pairwise different (told apart by their
      first or second character). */
  lemma DistinctKeys()
    ensures "ssid" != "password" && "ssid" != "crypto" && "ssid" != "currency" && "ssid" != "interval"
    ensures "password" != "crypto" && "password" != "currency" && "password" != "interval"
    ensures "crypto" != "currency" && "crypto" != "interval" && "currency" != "interval"
  {
    assert "password"[0] != "ssid"[0];
    assert "crypto"[0] != "ssid"[0] && "crypto"[0] != "password"[0];
    assert "currency"[0] != "ssid"[0] && "currency"[0] != "password"[0] && "currency"[1] != "crypto"[1];
    assert "interval"[0] != "ssid"[0] && "interval"[0] != "password"[0];
    assert "interval"[0] != "crypto"[0] && "interval"[0] != "currency"[0];
  }

  /** Helper: `StoreField` unfolded for each of the five keys. */
  lemma StoreAt(form: FormData, decoded: string)
    ensures StoreField(form, "ssid", decoded) == form.(ssid := StrNCopy(decoded, SSID_SIZE - 1))
    ensures StoreField(form, "password", decoded) == form.(password := StrNCopy(decoded, PASSWORD_SIZE - 1))
    ensures StoreField(form, "crypto", decoded) == form.(crypto := StrNCopy(decoded, CRYPTO_SIZE - 1))
    ensures StoreField(form, "currency", decoded) == form.(currency := StrNCopy(decoded, CURRENCY_SIZE - 1))
    ensures StoreField(form, "interval", decoded) == form.(interval := Atoi(CString(decoded)))
  {
    DistinctKeys();
    StoreKey(form, "ssid", decoded);
    StoreKey(form, "password", decoded);
    StoreKey(form, "crypto", decoded);
    StoreKey(form, "currency", decoded);
    StoreKey(form, "interval", decoded);
  }

  /** Storing under one of the five keys, and reading the field it names. */
  lemma StoreKey(form: FormData, key: string, decoded: string)
    requires key in FORM_KEYS
    ensures key == "ssid" ==> StoreField(form, key, decoded) == form.(ssid := StrNCopy(decoded, SSID_SIZE - 1))
                              && FieldOf(form, key) == Some(Text(form.ssid))
    ensures key == "password" ==> StoreField(form, key, decoded) == form.(password := StrNCopy(decoded, PASSWORD_SIZE - 1))
                                  && FieldOf(form, key) == Some(Text(form.password))
    ensures key == "crypto" ==> StoreField(form, key, decoded) == form.(crypto := StrNCopy(decoded, CRYPTO_SIZE - 1))
                                && FieldOf(form, key) == Some(Text(form.crypto))
    ensures key == "currency" ==> StoreField(form, key, decoded) == form.(currency := StrNCopy(decoded, CURRENCY_SIZE - 1))
                                  && FieldOf(form, key) == Some(Text(form.currency))
    ensures key == "interval" ==> StoreField(form, key, decoded) == form.(interval := Atoi(CString(decoded)))
                                  && FieldOf(form, key) == Some(Number(form.interval))
  {
    DistinctKeys();
  }

  /** Storing under `k` changes only the field named `k`, and what it writes
      there does not depend on the form. */
  lemma FieldOfStoreField(form: FormData, k: string, decoded: string, key: string)
    requires key in FORM_KEYS
    ensures FieldOf(StoreField(form, k, decoded), key)
      == if k == key then FieldOf(StoreField(EMPTY_FORM, k, decoded), key) else FieldOf(form, key)
  {
    DistinctKeys();
    if k in FORM_KEYS {
      StoreKey(form, k, decoded);
      StoreKey(EMPTY_FORM, k, decoded);
      StoreKey(form, key, decoded);
      StoreKey(StoreField(form, k, decoded), key, decoded);
      StoreKey(StoreField(EMPTY_FORM, k, decoded), key, decoded);
    } else {
      assert StoreField(form, k, decoded) == form;
    }
  }

  /** A token `key=value` whose key has no '=' stores its decoded value at key. */
  lemma PairToken(form: FormData, key: string, value: string)
    requires '=' !in key
    ensures KeyOf(Pair(key, value)) == Some(key)
    ensures ApplyToken(form, Pair(key, value)) == StoreField(form, key, Truncate(UrlDecode(value), DECODED_SIZE - 1))
  {
    var t := Pair(key, value);
    assert t[|key|] == '=' && t[..|key|] == key;
    IndexOfAt(t, '=', |key|);
    assert t[|key| + 1..] == value;
  }

  // ---------------------------------------------------------------------
  // Which token decides a field

  /** The value a form field holds, under the key that sets it. */
  datatype Field = Text(text: string) | Number(number: int)

  function FieldOf(f: FormData, key: string): (r: Option<Field>)
    ensures r.Some? <==> key in FORM_KEYS
  {
    if key == "ssid" then Some(Text(f.ssid))
    else if key == "password" then Some(Text(f.password))
    else if key == "crypto" then Some(Text(f.crypto))
    else if key == "currency" then Some(Text(f.currency))
    else if key == "interval" then Some(Number(f.interval))
    else None
  }

  /** The index of the last token with the given key, if any. */
  function LastWithKey(tokens: seq<string>, key: string): (r: Option<nat>)
    ensures r.Some? ==> r.value < |tokens| && KeyOf(tokens[r.value]) == Some(key)
    ensures r.Some? ==> forall j :: r.value < j < |tokens| ==> KeyOf(tokens[j]) != Some(key)
    ensures r.None? ==> forall j :: 0 <= j < |tokens| ==> KeyOf(tokens[j]) != Some(key)
  {
    if tokens == [] then None
    else if KeyOf(tokens[|tokens| - 1]) == Some(key) then Some(|tokens| - 1)
    else LastWithKey(tokens[..|tokens| - 1], key)
  }

  /** One token changes only the field of its own key, and what it writes
      there does not depend on what the field held. */
  lemma ApplyTokenField(form: FormData, token: string, key: string)
    requires key in FORM_KEYS
    ensures FieldOf(ApplyToken(form, token), key)
      == if KeyOf(token) == Some(key) then FieldOf(ApplyToken(EMPTY_FORM, token), key) else FieldOf(form, key)
  {
    if KeyOf(token).Some? {
      FieldOfStoreField(form, KeyOf(token).value, DecodedOf(token), key);
    }
  }

  lemma {:induction false} ApplyTokensSnoc(form: FormData, tokens: seq<string>, t: string)
    ensures ApplyTokens(form, tokens + [t]) == ApplyToken(ApplyTokens(form, tokens), t)
    decreases |tokens|
  {
    if tokens == [] {
      assert ApplyTokens(ApplyToken(form, t), []) == ApplyToken(form, t);
    } else {
      assert (tokens + [t])[1..] == tokens[1..] + [t];
      ApplyTokensSnoc(ApplyToken(form, tokens[0]), tokens[1..], t);
    }
  }

  /** A field holds what the last token with its key wrote, and stays as it
      was when no token has its key. */
  lemma {:induction false} FieldAfterTokens(form: FormData, tokens: seq<string>, key: string)
    requires key in FORM_KEYS
    ensures FieldOf(ApplyTokens(form, tokens), key) ==
      match LastWithKey(tokens, key)
      case None => FieldOf(form, key)
      case Some(j) => FieldOf(ApplyToken(EMPTY_FORM, tokens[j]), key)
    decreases |tokens|
  {
    if tokens != [] {
      var init, last := tokens[..|tokens| - 1], tokens[|tokens| - 1];
      assert tokens == init + [last];
      ApplyTokensSnoc(form, init, last);
      ApplyTokenField(ApplyTokens(form, init), last, key);
      if KeyOf(last) != Some(key) {
        FieldAfterTokens(form, init, key);
      }
    }
  }

  /** After parsing a body, a field is what the last token with its key
      wrote; a field no token names is still empty (the interval still 0). */
  lemma ParsedFieldIsLastAssignment(body: string, key: string)
    requires key in FORM_KEYS
    ensures FieldOf(ParseSpec(body), key) ==
      match LastWithKey(Tokens(body), key)
      case None => FieldOf(EMPTY_FORM, key)
      case Some(j) => FieldOf(ApplyToken(EMPTY_FORM, Tokens(body)[j]), key)
  {
    FieldAfterTokens(EMPTY_FORM, Tokens(body), key);
  }

  // ---------------------------------------------------------------------
  // The browser side: the form encoding and the round trip

  /** Text a C string can carry: bytes other than NUL. */
  predicate IsByteText(s: string) {
    forall i :: 0 <= i < |s| ==> 0 < s[i] as int < 256
  }

  /** The bytes the application/x-www-form-urlencoded serializer of the
      WHATWG URL Standard (section 5.2) leaves as they are. */
  predicate IsUnreserved(c: char) {
    IsDigit(c) || 'a' <= c <= 'z' || 'A' <= c <= 'Z' || c == '*' || c == '-' || c == '.' || c == '_'
  }

  function HexUpper(d: nat): (c: char)
    requires d < 16
    ensures IsHexDigit(c) && HexValue(c) == d
  {
    if d < 10 then ('0' as int + d) as char else ('A' as int + d - 10) as char
  }

  function EncodeByte(c: char): (r: string)
    requires c as int < 256
    ensures r != [] && '&' !in r && '=' !in r
  {
    if IsUnreserved(c) then [c]
    else if c == ' ' then "+"
    else ['%', HexUpper(c as int / 16), HexUpper(c as int % 16)]
  }

  /** How a browser encodes one form value. */
  function FormEncode(s: string): (r: string)
    requires IsByteText(s)
    ensures '&' !in r && '=' !in r
  {
    if s == [] then [] else EncodeByte(s[0]) + FormEncode(s[1..])
  }

  lemma DecodeEncodedByte(c: char, rest: string)
    requires c as int < 256
    ensures UrlDecode(EncodeByte(c) + rest) == [c] + UrlDecode(rest)
  {
    var e := EncodeByte(c) + rest;
    if IsUnreserved(c) || c == ' ' {
      assert e[1..] == rest;
    } else {
      var h, l := HexUpper(c as int / 16), HexUpper(c as int % 16);
      assert e[0] == '%' && e[1] == h && e[2] == l && e[3..] == rest;
      assert StrtolHex(h, l) == c as int;
    }
  }

  /** Decoding undoes the browser's encoding. */
  lemma {:induction false} UrlDecodeInvertsFormEncode(s: string)
    requires IsByteText(s)
    ensures UrlDecode(FormEncode(s)) == s
  {
    if s != [] {
      DecodeEncodedByte(s[0], FormEncode(s[1..]));
      UrlDecodeInvertsFormEncode(s[1..]);
    }
  }

  /** The pairs a browser submits for the configuration form, in the form's
      order. */
  function SubmissionPairs(ssid: string, password: string, crypto: string, currency: string, interval: nat): seq<string>
    requires IsByteText(ssid) && IsByteText(password) && IsByteText(crypto) && IsByteText(currency)
  {
    [Pair("ssid", FormEncode(ssid)), Pair("password", FormEncode(password)), Pair("crypto", FormEncode(crypto)),
     Pair("currency", FormEncode(currency)), Pair("interval", Decimal(interval))]
  }

  /** The body a browser submits for the configuration form. */
  function Submission(ssid: string, password: string, crypto: string, currency: string, interval: nat): string
    requires IsByteText(ssid) && IsByteText(password) && IsByteText(crypto) && IsByteText(currency)
  {
    Join(SubmissionPairs(ssid, password, crypto, currency, interval))
  }

  lemma SubmissionPairsAreTokens(ssid: string, password: string, crypto: string, currency: string, interval: nat)
    requires IsByteText(ssid) && IsByteText(password) && IsByteText(crypto) && IsByteText(currency)
    ensures var ps := SubmissionPairs(ssid, password, crypto, currency, interval);
      forall j :: 0 <= j < |ps| ==> ps[j] != [] && '&' !in ps[j]
  {
    var d := Decimal(interval);
    assert '&' !in d by {
      forall i | 0 <= i < |d| ensures d[i] != '&' { assert IsDigit(d[i]); }
    }
    PairHasNoAmpersand("ssid", FormEncode(ssid));
    PairHasNoAmpersand("password", FormEncode(password));
    PairHasNoAmpersand("crypto", FormEncode(crypto));
    PairHasNoAmpersand("currency", FormEncode(currency));
    PairHasNoAmpersand("interval", d);
    var ps := SubmissionPairs(ssid, password, crypto, currency, interval);
    forall j | 0 <= j < |ps| ensures ps[j] != [] && '&' !in ps[j] {
      assert j == 0 || j == 1 || j == 2 || j == 3 || j == 4;
    }
  }

  lemma ApplyTokensCons(form: FormData, t: string, ts: seq<string>)
    ensures ApplyTokens(form, [t] + ts) == ApplyTokens(ApplyToken(form, t), ts)
  {
    assert ([t] + ts)[1..] == ts;
  }

  lemma ApplyFiveTokens(form: FormData, t1: string, t2: string, t3: string, t4: string, t5: string)
    ensures ApplyTokens(form, [t1, t2, t3, t4, t5])
      == ApplyToken(ApplyToken(ApplyToken(ApplyToken(ApplyToken(form, t1), t2), t3), t4), t5)
  {
    var f1 := ApplyToken(form, t1);
    var f2 := ApplyToken(f1, t2);
    var f3 := ApplyToken(f2, t3);
    var f4 := ApplyToken(f3, t4);
    assert [t1, t2, t3, t4, t5] == [t1] + [t2, t3, t4, t5];
    ApplyTokensCons(form, t1, [t2, t3, t4, t5]);
    assert [t2, t3, t4, t5] == [t2] + [t3, t4, t5];
    ApplyTokensCons(f1, t2, [t3, t4, t5]);
    assert [t3, t4, t5] == [t3] + [t4, t5];
    ApplyTokensCons(f2, t3, [t4, t5]);
    assert [t4, t5] == [t4] + [t5];
    ApplyTokensCons(f3, t4, [t5]);
    assert [t5] == [t5] + [];
    ApplyTokensCons(f4, t5, []);
  }

  lemma NulFreeOfByteText(s: string)
    requires IsByteText(s)
    ensures NUL !in s
  {
    forall i | 0 <= i < |s| ensures s[i] != NUL { }
  }

  /** The field a text value ends up in: decoded, cut to the decode buffer,
      then to the field. */
  lemma StoredText(s: string, size: nat)
    requires IsByteText(s) && 1 <= size <= DECODED_SIZE
    ensures StrNCopy(Truncate(UrlDecode(FormEncode(s)), DECODED_SIZE - 1), size - 1) == Truncate(s, size - 1)
  {
    UrlDecodeInvertsFormEncode(s);
    var t := Truncate(s, DECODED_SIZE - 1);
    assert IsByteText(t) by {
      forall i | 0 <= i < |t| ensures 0 < t[i] as int < 256 { assert t[i] == s[i]; }
    }
    NulFreeOfByteText(t);
    CStringOfNulFree(t);
    TruncateTwice(s, DECODED_SIZE - 1, size - 1);
  }

  /** The interval a numeral ends up as, when the numeral fits the decode
      buffer. */
  lemma StoredNumber(n: nat)
    requires |Decimal(n)| < DECODED_SIZE
    ensures Atoi(CString(Truncate(UrlDecode(Decimal(n)), DECODED_SIZE - 1))) == n
  {
    var d := Decimal(n);
    assert '%' !in d && '+' !in d && NUL !in d by {
      forall i | 0 <= i < |d| ensures d[i] != '%' && d[i] != '+' && d[i] != NUL { assert IsDigit(d[i]); }
    }
    UrlDecodePlain(d);
    CStringOfNulFree(d);
    AtoiOfDecimal(n);
  }

  lemma SsidPair(form: FormData, s: string)
    requires IsByteText(s)
    ensures ApplyToken(form, Pair("ssid", FormEncode(s))) == form.(ssid := Truncate(s, SSID_SIZE - 1))
  {
    PairToken(form, "ssid", FormEncode(s));
    StoreAt(form, Truncate(UrlDecode(FormEncode(s)), DECODED_SIZE - 1));
    StoredText(s, SSID_SIZE);
  }

  lemma PasswordPair(form: FormData, s: string)
    requires IsByteText(s)
    ensures ApplyToken(form, Pair("password", FormEncode(s))) == form.(password := Truncate(s, PASSWORD_SIZE - 1))
  {
    PairToken(form, "password", FormEncode(s));
    StoreAt(form, Truncate(UrlDecode(FormEncode(s)), DECODED_SIZE - 1));
    StoredText(s, PASSWORD_SIZE);
  }

  lemma CryptoPair(form: FormData, s: string)
    requires IsByteText(s)
    ensures ApplyToken(form, Pair("crypto", FormEncode(s))) == form.(crypto := Truncate(s, CRYPTO_SIZE - 1))
  {
    PairToken(form, "crypto", FormEncode(s));
    StoreAt(form, Truncate(UrlDecode(FormEncode(s)), DECODED_SIZE - 1));
    StoredText(s, CRYPTO_SIZE);
  }

  lemma CurrencyPair(form: FormData, s: string)
    requires IsByteText(s)
    ensures ApplyToken(form, Pair("currency", FormEncode(s))) == form.(currency := Truncate(s, CURRENCY_SIZE - 1))
  {
    PairToken(form, "currency", FormEncode(s));
    StoreAt(form, Truncate(UrlDecode(FormEncode(s)), DECODED_SIZE - 1));
    StoredText(s, CURRENCY_SIZE);
  }

  lemma IntervalPair(form: FormData, n: nat)
    requires |Decimal(n)| < DECODED_SIZE
    ensures ApplyToken(form, Pair("interval", Decimal(n))) == form.(interval := n)
  {
    PairToken(form, "interval", Decimal(n));
    StoreAt(form, Truncate(UrlDecode(Decimal(n)), DECODED_SIZE - 1));
    StoredNumber(n);
  }

  /** Whatever a browser submits is what the form holds, each text truncated
      to its field's size less one and the interval read back exactly. */
  lemma SubmissionRoundTrip(ssid: string, password: string, crypto: string, currency: string, interval: nat)
    requires IsByteText(ssid) && IsByteText(password) && IsByteText(crypto) && IsByteText(currency)
    requires |Decimal(interval)| < DECODED_SIZE
    ensures ParseSpec(Submission(ssid, password, crypto, currency, interval)) ==
      FormData(Truncate(ssid, SSID_SIZE - 1), Truncate(password, PASSWORD_SIZE - 1),
               Truncate(crypto, CRYPTO_SIZE - 1), Truncate(currency, CURRENCY_SIZE - 1), interval)
  {
    var ps := SubmissionPairs(ssid, password, crypto, currency, interval);
    SubmissionPairsAreTokens(ssid, password, crypto, currency, interval);
    ParsePairs(ps);
    ApplyFiveTokens(EMPTY_FORM, ps[0], ps[1], ps[2], ps[3], ps[4]);
    var f1 := ApplyToken(EMPTY_FORM, ps[0]);
    var f2 := ApplyToken(f1, ps[1]);
    var f3 := ApplyToken(f2, ps[2]);
    var f4 := ApplyToken(f3, ps[3]);
    SsidPair(EMPTY_FORM, ssid);
    PasswordPair(f1, password);
    CryptoPair(f2, crypto);
    CurrencyPair(f3, currency);
    IntervalPair(f4, interval);
  }

  // ---------------------------------------------------------------------
  // The overrun of the decoding loop as written

  /** As written, the decoding loop writes `decoded_value[k]` for every
      output byte k with no check: 65 plain characters make it write
      `decoded_value[64]`, one past the end of the array. */
  lemma DecodeOverrunWitness()
    ensures var v := seq(DECODED_SIZE + 1, _ => 'a');
      |UrlDecode(v)| - 1 == DECODED_SIZE
  {
    var v := seq(DECODED_SIZE + 1, _ => 'a');
    assert '%' !in v && '+' !in v by {
      forall i | 0 <= i < |v| ensures v[i] != '%' && v[i] != '+' { assert v[i] == 'a'; }
    }
    UrlDecodePlain(v);
  }

  // ---------------------------------------------------------------------
  // What a save leaves in the store

  /** Every value a save writes reads back through the typed reads the
      station connect, the quote module and the poll loop perform, with the
      buffer sizes they use; other keys keep their values. */
  lemma SavedSettingsReadBack(store: Store, f: FormData)
    requires Fits(f)
    ensures GetStr(Persist(store, f), KEY_SSID, SSID_SIZE) == Some(f.ssid)
    ensures GetStr(Persist(store, f), KEY_PASSWORD, PASSWORD_SIZE) == Some(f.password)
    ensures GetStr(Persist(store, f), KEY_CRYPTO, CRYPTO_SIZE) == Some(f.crypto)
    ensures GetStr(Persist(store, f), KEY_CURRENCY, CURRENCY_SIZE) == Some(f.currency)
    ensures GetU32(Persist(store, f), KEY_INTERVAL) == Some(ToU32(f.interval))
    ensures forall k :: k in store && k !in {KEY_SSID, KEY_PASSWORD, KEY_CRYPTO, KEY_CURRENCY, KEY_INTERVAL} ==>
              k in Persist(store, f) && Persist(store, f)[k] == store[k]
  {
  }

  /** A save changes the store only on the path that restarts the device,
      and that path writes the five keys, commits, confirms, waits 5 s and
      restarts, in that order. */
  lemma SaveRestartsExactlyWhenStored(contentLen: nat, recv: Recv, storeOpens: bool)
    ensures var o := SaveSpec(contentLen, recv, storeOpens);
      (Restart in StepsOf(o) <==> o.Saved?)
      && (o.Saved? ==>
            |StepsOf(o)| == 10
            && (forall i :: 0 <= i < 5 ==> StepsOf(o)[i].SetStr? || StepsOf(o)[i].SetU32?)
            && StepsOf(o)[5] == Commit
            && StepsOf(o)[7] == Respond(200, SAVED_MESSAGE)
            && StepsOf(o)[8] == Delay(RESTART_DELAY_MS)
            && StepsOf(o)[9] == Restart)
      && (!o.Saved? ==> forall i :: 0 <= i < |StepsOf(o)| ==> !StepsOf(o)[i].SetStr? && !StepsOf(o)[i].SetU32?)
  {
    StepsOfOutcome(SaveSpec(contentLen, recv, storeOpens));
  }

  lemma StepsOfOutcome(o: SaveOutcome)
    ensures (Restart in StepsOf(o) <==> o.Saved?)
      && (o.Saved? ==>
            |StepsOf(o)| == 10
            && (forall i :: 0 <= i < 5 ==> StepsOf(o)[i].SetStr? || StepsOf(o)[i].SetU32?)
            && StepsOf(o)[5] == Commit
            && StepsOf(o)[7] == Respond(200, SAVED_MESSAGE)
            && StepsOf(o)[8] == Delay(RESTART_DELAY_MS)
            && StepsOf(o)[9] == Restart)
      && (!o.Saved? ==> forall i :: 0 <= i < |StepsOf(o)| ==> !StepsOf(o)[i].SetStr? && !StepsOf(o)[i].SetU32?)
  {
  }

  /** A form that never named the interval stores 0, which the poll loop
      then reads as a zero-second wait; a form that never named the crypto
      stores the empty string. */
  lemma UnnamedFieldsStoreEmpty(store: Store, body: string)
    requires LastWithKey(Tokens(body), "interval").None? && LastWithKey(Tokens(body), "crypto").None?
    ensures GetU32(Persist(store, ParseSpec(body)), KEY_INTERVAL) == Some(0)
    ensures GetStr(Persist(store, ParseSpec(body)), KEY_CRYPTO, CRYPTO_SIZE) == Some("")
  {
    ParsedFieldIsLastAssignment(body, "interval");
    ParsedFieldIsLastAssignment(body, "crypto");
  }
}
