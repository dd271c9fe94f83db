/** The credential store of `driver/token.py`: a string-keyed map read
    from `data/wx.lic`, updated by `set_token` and read by `get`. */
module Credentials {
  import opened Options

  /** A stored value: a string, Python's `None`, a dictionary (its keys
      and its `str()` rendering), or any other value, carried as its
      `str()` rendering. */
  datatype Value = Text(s: string) | Null | Dict(keys: set<string>, repr: string) | Other(repr: string)

  type Store = map<string, Value>

  /** The `{}` default of `expiry`. */
  const EmptyDict: Value := Dict({}, "{}")

  /** Whether `v['expiry_time']` can be evaluated: only a dictionary with
      that key; anything else raises `TypeError` or `KeyError`. */
  predicate HasExpiryTime(v: Value) {
    v.Dict? && "expiry_time" in v.keys
  }

  /** The store at import time: the file's contents, or `{}` when the file
      did not exist (it is then created with that content). */
  function Load(file: Option<Store>): (r: Store)
    ensures file.None? ==> r == map[]
    ensures file.Some? ==> r == file.value
  {
    file.GetOr(map[])
  }

  /** `dict.get(key, default)` */
  function Lookup(m: map<string, Value>, key: string, default: Value): (v: Value)
    ensures key in m ==> v == m[key]
    ensures key !in m ==> v == default
  {
    if key in m then m[key] else default
  }

  /** The guard of `set_token`: a missing token or the empty string. A
      `None` token passes the guard. */
  predicate NoToken(data: map<string, Value>) {
    Lookup(data, "token", Text("")) == Text("")
  }

  /** `set_token`: nothing happens without a token; otherwise `token`,
      `cookie` and `expiry` are written, and `ext_data` only when it is
      given. `ext` is `Null` when the caller passes `None`. The store is
      saved before the notice, whose `data.get("expiry")['expiry_time']`
      raises unless the expiry is a dictionary holding that key; `r.1`
      says that it raised, and the saved store stays written. */
  function SetToken(store: Store, data: map<string, Value>, ext: Value): (res: (Store, bool))
    ensures res.1 <==> !NoToken(data) && !HasExpiryTime(Lookup(data, "expiry", Null))
    ensures var r := res.0;
      NoToken(data) ==> r == store
    ensures var r := res.0;
      !NoToken(data) ==>
      && "token" in data && "token" in r && "cookie" in r && "expiry" in r
      && r["token"] == data["token"]
      && r["cookie"] == Lookup(data, "cookies_str", Text(""))
      && r["expiry"] == Lookup(data, "expiry", EmptyDict)
      && (ext != Null ==> "ext_data" in r && r["ext_data"] == ext)
      && (ext == Null ==> ("ext_data" in r <==> "ext_data" in store))
      && (ext == Null && "ext_data" in store ==> r["ext_data"] == store["ext_data"])
    ensures var r := res.0;
      forall k :: k !in {"token", "cookie", "expiry", "ext_data"} ==>
        (k in r <==> k in store) && (k in store ==> r[k] == store[k])
  {
    if NoToken(data) then (store, false)
    else
      var s1 := store["token" := data["token"]]
                     ["cookie" := Lookup(data, "cookies_str", Text(""))]
                     ["expiry" := Lookup(data, "expiry", EmptyDict)];
      var saved := if ext != Null then s1["ext_data" := ext] else s1;
      (saved, !HasExpiryTime(Lookup(data, "expiry", Null)))
  }

  /** Without an expiry the `{}` default is stored and the notice then
      raises: the call never completes normally. */
  lemma DefaultExpiryRaises(store: Store, data: map<string, Value>, ext: Value)
    requires !NoToken(data) && "expiry" !in data
    ensures SetToken(store, data, ext).1
    ensures SetToken(store, data, ext).0["expiry"] == EmptyDict
  {
  }

  /** A call completes normally exactly when it stored an expiry that
      holds `expiry_time`, or when the guard returned early. */
  lemma SetTokenCompletes(store: Store, data: map<string, Value>, ext: Value)
    ensures !SetToken(store, data, ext).1 <==>
      NoToken(data) || HasExpiryTime(SetToken(store, data, ext).0["expiry"])
  {
  }

  /** Writing the same data twice is writing it once. */
  lemma SetTokenIdempotent(store: Store, data: map<string, Value>, ext: Value)
    ensures SetToken(SetToken(store, data, ext).0, data, ext) == SetToken(store, data, ext)
  {
    var once := SetToken(store, data, ext).0;
    assert SetToken(once, data, ext).0 == once;
  }

  /** `str()` of a stored value. */
  function Str(v: Value): string {
    match v
    case Text(s) => s
    case Null => "None"
    case Dict(_, r) => r
    case Other(r) => r
  }

  /** `get`: the stored value or the default, as a string. */
  function Get(store: Store, key: string, default: string): (r: string)
    ensures key !in store ==> r == default
    ensures key in store && store[key].Text? ==> r == store[key].s
  {
    Str(Lookup(store, key, Text(default)))
  }

  /** What `get` returns after `set_token`: the token written, the cookie
      header or "", and an `ext_data` that is kept when none was passed. */
  lemma GetAfterSetToken(store: Store, data: map<string, Value>, ext: Value, default: string)
    requires !NoToken(data)
    ensures Get(SetToken(store, data, ext).0, "token", default) == Str(data["token"])
    ensures "cookies_str" !in data ==> Get(SetToken(store, data, ext).0, "cookie", default) == ""
    ensures ext == Null ==> Get(SetToken(store, data, ext).0, "ext_data", default) == Get(store, "ext_data", default)
  {
  }

  /** A `None` token is not caught by the guard: it is stored and read
      back as the string "None". */
  lemma NullTokenStored(store: Store, data: map<string, Value>, ext: Value)
    requires "token" in data && data["token"] == Null
    ensures Get(SetToken(store, data, ext).0, "token", "") == "None"
  {
  }
}
