/** The persistent settings store (the NVS namespace "storage"): a map from
    key to a typed value, the five keys the firmware uses, and the typed
    reads `nvs_get_str` and `nvs_get_u32` perform on it. */
module Settings {
  import opened CLib

  datatype Value = Str(text: string) | U32(number: u32)

  type Store = map<string, Value>

  const KEY_SSID: string := "wifi_ssid"
  const KEY_PASSWORD: string := "wifi_pass"
  const KEY_CRYPTO: string := "crypto"
  const KEY_CURRENCY: string := "currency"
  const KEY_INTERVAL: string := "interval"

  /** `nvs_get_str(handle, key, buf, &len)` with `len` the size of `buf`: it
      fails when the key is absent, holds a value of another type, or holds a
      string that does not fit, with its terminator, in `size` bytes. */
  function GetStr(store: Store, key: string, size: nat): (r: Option<string>)
    ensures r.Some? <==> key in store && store[key].Str? && |store[key].text| < size
    ensures r.Some? ==> r.value == store[key].text
  {
    if key in store && store[key].Str? && |store[key].text| < size then Some(store[key].text) else None
  }

  /** `nvs_get_u32`: fails when the key is absent or of another type. */
  function GetU32(store: Store, key: string): (r: Option<u32>)
    ensures r.Some? <==> key in store && store[key].U32?
    ensures r.Some? ==> r.value == store[key].number
  {
    if key in store && store[key].U32? then Some(store[key].number) else None
  }

  /** The store as the one writer, the configuration service, sees it: a
      handle whose `set` calls overwrite one key each. */
  class Nvs {
    var entries: Store

    constructor (initial: Store)
      ensures entries == initial
    {
      entries := initial;
    }

    method SetStr(key: string, text: string)
      modifies this
      ensures entries == old(entries)[key := Str(text)]
    {
      entries := entries[key := Str(text)];
    }

    method SetU32(key: string, number: u32)
      modifies this
      ensures entries == old(entries)[key := U32(number)]
    {
      entries := entries[key := U32(number)];
    }
  }
}
