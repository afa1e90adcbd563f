/**
 * The persistence handler of one experiment (lib/storage-handler.js): it keeps the id of the
 * variant assigned to the visitor under the key `web_experiment_<experimentId>`, in a cookie
 * (percent-encoded) or in local storage, and swallows every storage failure.
 */
module Storage {
  import opened Wrappers
  import opened Strings
  import opened UriComponent
  import opened BrowserStorage

  /** Key prefix that keeps the handler's entries apart from unrelated data. */
  const StoragePrefix: string := "web_experiment_"

  /** Cookie lifetime, in days. */
  const DefaultCookieExpiryDays: nat := 365

  const MsPerDay: nat := 24 * 60 * 60 * 1000

  /** The message of the error the constructor throws without an experiment id. */
  const MissingIdMessage: string := "StorageHandler requires an experimentId."

  datatype StorageType = Cookie | Local

  /** The backend: local storage only when `'local'` is asked for; anything else, or nothing, means cookies. */
  function ResolveStorageType(requested: Option<string>): (t: StorageType)
    ensures t == Local <==> requested == Some("local")
    ensures t == Cookie <==> requested != Some("local")
  {
    if requested == Some("local") then Local else Cookie
  }

  /** The storage key of an experiment. */
  function StorageKey(experimentId: string): (key: string)
    ensures StartsWith(key, StoragePrefix)
    ensures key[|StoragePrefix|..] == experimentId
  {
    StoragePrefix + experimentId
  }

  /** Distinct experiments never share a key. */
  lemma {:induction false} StorageKeyInjective(a: string, b: string)
    requires StorageKey(a) == StorageKey(b)
    ensures a == b
  {
    assert a == StorageKey(a)[|StoragePrefix|..];
  }

  /** A key that survives the cookie jar as a name: non-empty, without `;` or `=`, no surrounding spaces. */
  predicate ValidCookieName(key: string) {
    key != [] && Clean(key) && Trimmed(key)
  }

  /** Which experiment ids give a key that survives as a cookie name. */
  lemma {:induction false} ValidCookieNameOfKey(experimentId: string)
    ensures ValidCookieName(StorageKey(experimentId)) <==>
              Clean(experimentId) && (experimentId == [] || !IsJsSpace(experimentId[|experimentId| - 1]))
  {
    var key := StorageKey(experimentId);
    assert key[0] == 'w';
    assert forall c :: c in key <==> c in StoragePrefix || c in experimentId;
    if experimentId != [] {
      assert key[|key| - 1] == experimentId[|experimentId| - 1];
    }
  }

  /** `rows.find(row => row.startsWith(prefix))`. */
  function FindRow(rows: seq<string>, prefix: string): (r: Option<string>)
    ensures r.Some? ==> StartsWith(r.value, prefix) && r.value in rows
    ensures r.None? <==> forall i :: 0 <= i < |rows| ==> !StartsWith(rows[i], prefix)
    ensures r.Some? ==> exists i :: 0 <= i < |rows| && rows[i] == r.value
                                    && forall j :: 0 <= j < i ==> !StartsWith(rows[j], prefix)
  {
    if rows == [] then None
    else if StartsWith(rows[0], prefix) then Some(rows[0])
    else
      var r := FindRow(rows[1..], prefix);
      assert r.Some? ==> exists i :: 0 <= i < |rows| && rows[i] == r.value
                                     && forall j :: 0 <= j < i ==> !StartsWith(rows[j], prefix) by {
        if r.Some? {
          var i :| 0 <= i < |rows| - 1 && rows[1..][i] == r.value
                   && forall j :: 0 <= j < i ==> !StartsWith(rows[1..][j], prefix);
          assert rows[i + 1] == r.value;
          assert forall j :: 0 <= j < i + 1 ==> !StartsWith(rows[j], prefix) by {
            forall j | 0 <= j < i + 1 ensures !StartsWith(rows[j], prefix) {
              if j > 0 { assert rows[j] == rows[1..][j - 1]; }
            }
          }
        }
      }
      r
  }

  /**
   * The raw text stored under `key` in a `document.cookie` string: split on `"; "`, take the first
   * row starting with `key=`, and keep what `row.split('=')[1]` gives.
   */
  function CookieValue(cookie: string, key: string): (v: Option<string>)
    ensures v.None? <==> FindRow(Split(cookie, "; "), key + "=").None?
    ensures v.Some? ==> var row := FindRow(Split(cookie, "; "), key + "=").value;
                        |Split(row, "=")| >= 2 && v.value == Split(row, "=")[1]
  {
    match FindRow(Split(cookie, "; "), key + "=")
    case None => None
    case Some(row) =>
      assert row[|key|] == '=';
      SplitAtLeastTwo(row, '=');
      Some(Split(row, "=")[1])
  }

  /** A row `name=value` of the jar starts with `key=` exactly when its name is `key`. */
  lemma {:induction false} RowMatches(name: string, value: string, key: string)
    requires Clean(name) && Clean(value)
    ensures StartsWith(name + "=" + value, key + "=") <==> name == key
  {
    var row := name + "=" + value;
    if StartsWith(row, key + "=") {
      assert (key + "=")[|key|] == '=';
      EqualsPosition(name, value, |key|);
      assert key == row[..|key|];
    }
  }

  /** The only `=` in `name=value` is the separator. */
  lemma {:induction false} EqualsPosition(name: string, value: string, i: nat)
    requires Clean(name) && Clean(value) && i < |name| + 1 + |value|
    ensures (name + "=" + value)[i] == '=' <==> i == |name|
  {
    var row := name + "=" + value;
    if i < |name| {
      assert row[i] == name[i] && name[i] in name;
    } else if i > |name| {
      assert row[i] == value[i - |name| - 1] && value[i - |name| - 1] in value;
    }
  }

  lemma {:induction false} FindRowLookup(entries: Entries, key: string)
    requires WellFormed(entries)
    ensures FindRow(Rows(entries), key + "=") ==
              if Lookup(entries, key).Some? then Some(Row((key, Lookup(entries, key).value))) else None
    decreases |entries|
  {
    if entries != [] {
      var rows := Rows(entries);
      RowMatches(entries[0].0, entries[0].1, key);
      if entries[0].0 != key {
        WellFormedTail(entries);
        assert rows[1..] == Rows(entries[1..]);
        FindRowLookup(entries[1..], key);
      }
    }
  }

  /** Parsing the jar's cookie string finds exactly the value the jar holds under `key`. */
  lemma {:induction false} CookieValueLookup(entries: Entries, key: string)
    requires WellFormed(entries)
    ensures CookieValue(CookieString(entries), key) == Lookup(entries, key)
  {
    var rows := Rows(entries);
    if entries == [] {
      assert CookieString(entries) == "";
      assert Split("", "; ") == [""];
      assert !StartsWith("", key + "=");
    } else {
      assert FreeOf(rows, ';') by {
        forall i | 0 <= i < |rows| ensures ';' !in rows[i] {
          assert rows[i] == entries[i].0 + "=" + entries[i].1;
        }
      }
      SplitJoin(rows, "; ");
      FindRowLookup(entries, key);
      var v := Lookup(entries, key);
      if v.Some? {
        var i :| 0 <= i < |entries| && entries[i].0 == key;
        assert Clean(key);
        LookupIn(entries, key);
        SplitWithoutSeparator(v.value, "=");
        SplitAtFirst(key, "=", v.value);
      }
    }
  }

  /** A value found by Lookup is one of the jar's values. */
  lemma {:induction false} LookupIn(entries: Entries, key: string)
    requires WellFormed(entries)
    ensures Lookup(entries, key).Some? ==> Clean(Lookup(entries, key).value)
    decreases |entries|
  {
    if entries != [] && entries[0].0 != key {
      WellFormedTail(entries);
      LookupIn(entries[1..], key);
    }
  }

  /** The encoded form of an id is a clean, trimmed cookie value, empty only for the empty id. */
  lemma {:induction false} EncodedIsCookieSafe(v: string)
    ensures Clean(Encode(v)) && Trimmed(Encode(v))
    ensures Encode(v) == [] <==> v == []
  {
    EncodeAlphabet(v);
    EncodeEmpty(v);
    var e := Encode(v);
    forall c | c in e ensures c != ';' && c != '=' && !IsJsSpace(c) {
      EncodedCharSafe(c);
    }
    if e != [] {
      assert e[0] in e && e[|e| - 1] in e;
    }
  }

  /** No character of an encoding is a separator of the cookie string or a space. */
  lemma {:induction false} EncodedCharSafe(c: char)
    requires Unescaped(c) || c == '%'
    ensures c != ';' && c != '=' && !IsJsSpace(c)
  {
  }

  /** Writing `key=value` with a future expiry stores the value under the key and nothing else. */
  lemma {:induction false} AssignStores(entries: Entries, key: string, value: string, expiresMs: int)
    requires WellFormed(entries) && ValidCookieName(key) && Clean(value) && Trimmed(value)
    requires expiresMs >= ExpiryCutoffMs
    ensures AssignCookie(entries, key + "=" + value, expiresMs) == Put(entries, key, value)
  {
    var head := key + "=" + value;
    assert ';' !in head;
    SplitWithoutSeparator(head, ";");
    assert Split(head, ";")[0] == head;
    SplitWithoutSeparator(value, "=");
    SplitAtFirst(key, "=", value);
    var pair := Split(head, "=");
    assert pair == [key, value];
    assert Trim(key) == key && Trim(value) == value;
  }

  /** For a usable name, writing `key=` with the epoch expiry is a deletion of `key`. */
  lemma {:induction false} AssignEpochRemoves(entries: Entries, key: string)
    requires ValidCookieName(key)
    ensures AssignCookie(entries, key + "=", 0) == Remove(entries, key)
  {
    var head := key + "=";
    assert head == key + "=" + "";
    SplitWithoutSeparator(head, ";");
    SplitWithoutSeparator("", "=");
    SplitAtFirst(key, "=", "");
    TrimSpec(key);
  }

  /** Writing `key=` with the epoch expiry leaves nothing under `key`, whatever `key` is. */
  lemma {:induction false} AssignDeletes(entries: Entries, key: string)
    requires WellFormed(entries) && key != []
    ensures Lookup(AssignCookie(entries, key + "=", 0), key) == None
  {
    AssignWellFormed(entries, key + "=", 0);
    var after := AssignCookie(entries, key + "=", 0);
    if ValidCookieName(key) {
      AssignEpochRemoves(entries, key);
      RemoveLookup(entries, key, key);
    } else {
      LookupImpossibleName(after, key);
    }
  }

  /**
   * Set then get through the cookie string: writing `id` under a usable cookie name and parsing the
   * resulting `document.cookie` for that name yields the encoded id, which decodes back to `id`.
   */
  lemma {:induction false} CookieRoundTrip(entries: Entries, key: string, id: string, expiresMs: int)
    requires WellFormed(entries) && ValidCookieName(key) && expiresMs >= ExpiryCutoffMs
    ensures var after := AssignCookie(entries, key + "=" + Encode(id), expiresMs);
            CookieValue(CookieString(after), key) == Some(Encode(id))
            && Decode(Encode(id)) == Some(id)
  {
    EncodedIsCookieSafe(id);
    AssignStores(entries, key, Encode(id), expiresMs);
    PutWellFormed(entries, key, Encode(id));
    CookieValueLookup(Put(entries, key, Encode(id)), key);
    PutLookup(entries, key, Encode(id), key);
    DecodeEncode(id);
  }

  /** Clear then get through the cookie string: once the key is written with the epoch expiry, no row matches it. */
  lemma {:induction false} CookieClearRoundTrip(entries: Entries, key: string)
    requires WellFormed(entries) && key != ""
    ensures CookieValue(CookieString(AssignCookie(entries, key + "=", 0)), key) == None
  {
    AssignWellFormed(entries, key + "=", 0);
    AssignDeletes(entries, key);
    CookieValueLookup(AssignCookie(entries, key + "=", 0), key);
  }

  /**
   * Why the round trip needs a usable cookie name: for an experiment id `a=b` the key is
   * `web_experiment_a=b`, so writing any variant lands in the cookie of experiment `a` with
   * value `b`, and reading its own key back finds nothing.
   */
  lemma {:induction false} EqualsInExperimentId(entries: Entries, a: string, b: string, id: string, expiresMs: int)
    requires WellFormed(entries) && ValidCookieName(StorageKey(a)) && Clean(b) && Trimmed(b)
    requires expiresMs >= ExpiryCutoffMs
    ensures var after := AssignCookie(entries, StorageKey(a + "=" + b) + "=" + Encode(id), expiresMs);
            after == Put(entries, StorageKey(a), b)
            && CookieValue(CookieString(after), StorageKey(a + "=" + b)) == None
  {
    var name := StorageKey(a);
    var key := StorageKey(a + "=" + b);
    var e := Encode(id);
    EncodedIsCookieSafe(id);
    ShadowedKey(a, b, e);
    AssignShadowed(entries, name, b, e, expiresMs);
    var after := AssignCookie(entries, key + "=" + e, expiresMs);
    AssignWellFormed(entries, key + "=" + e, expiresMs);
    LookupImpossibleName(after, key);
    CookieValueLookup(after, key);
  }

  /** The key of experiment `a=b`, followed by `=e`, reads as the key of `a` followed by `=b=e`. */
  lemma {:induction false} ShadowedKey(a: string, b: string, e: string)
    ensures StorageKey(a + "=" + b) + "=" + e == StorageKey(a) + "=" + (b + "=" + e)
    ensures '=' in StorageKey(a + "=" + b)
  {
    var key := StorageKey(a + "=" + b);
    assert key == StorageKey(a) + "=" + b;
    assert key[|StorageKey(a)|] == '=';
  }

  lemma {:induction false} AssignShadowed(entries: Entries, name: string, b: string, e: string, expiresMs: int)
    requires ValidCookieName(name) && Clean(b) && Trimmed(b) && Clean(e)
    requires expiresMs >= ExpiryCutoffMs
    ensures AssignCookie(entries, name + "=" + (b + "=" + e), expiresMs) == Put(entries, name, b)
  {
    var head := name + "=" + (b + "=" + e);
    ShadowedSplits(name, b, e);
    var pair := Split(head, "=");
    assert Split(head, ";")[0] == head;
    assert pair[0] == name && pair[1] == b && |pair| == 3;
    TrimSpec(name);
    TrimSpec(b);
    assert Trim(name) == name && Trim(b) == b;
  }

  /** How the mock jar splits `name=b=e` when none of the three parts holds `;` or `=`. */
  lemma {:induction false} ShadowedSplits(name: string, b: string, e: string)
    requires Clean(name) && Clean(b) && Clean(e)
    ensures var head := name + "=" + (b + "=" + e);
            Split(head, ";") == [head] && Split(head, "=") == [name, b, e]
  {
    var head := name + "=" + (b + "=" + e);
    assert forall c :: c in head ==> c in name || c == '=' || c in b || c in e;
    SplitWithoutSeparator(head, ";");
    SplitAtFirst(name, "=", b + "=" + e);
    SplitAtFirst(b, "=", e);
    SplitWithoutSeparator(e, "=");
  }

  /**
   * The storage interactions of an experiment, in the order made: constructing the handler, then
   * `getAssignedVariant()`, `clearAssignedVariant()` and `setAssignedVariant(variantId)`.
   */
  datatype StoreCall = Open | Read | Clear | Write(variantId: Option<string>)

  /** Number of writes among `calls`. */
  function Writes(calls: seq<StoreCall>): nat {
    if calls == [] then 0 else (if calls[0].Write? then 1 else 0) + Writes(calls[1..])
  }

  function Clears(calls: seq<StoreCall>): nat {
    if calls == [] then 0 else (if calls[0].Clear? then 1 else 0) + Clears(calls[1..])
  }

  lemma {:induction false} CountsAppend(a: seq<StoreCall>, b: seq<StoreCall>)
    ensures Writes(a + b) == Writes(a) + Writes(b)
    ensures Clears(a + b) == Clears(a) + Clears(b)
  {
    if a == [] {
      assert a + b == b;
    } else {
      assert (a + b)[0] == a[0];
      assert (a + b)[1..] == a[1..] + b;
      CountsAppend(a[1..], b);
    }
  }

  lemma {:induction false} SingleCounts(c: StoreCall)
    ensures Writes([c]) == (if c.Write? then 1 else 0)
    ensures Clears([c]) == (if c.Clear? then 1 else 0)
  {
    assert [c][1..] == [];
  }


  /** For a usable name, the mock jar files `key=value` under `key`. */
  lemma {:induction false} CookieNameOfHead(key: string, value: string)
    requires ValidCookieName(key) && Clean(value)
    ensures CookieName(key + "=" + value) == key
  {
    var head := key + "=" + value;
    assert ';' !in head;
    SplitWithoutSeparator(head, ";");
    SplitWithoutSeparator(value, "=");
    SplitAtFirst(key, "=", value);
    TrimSpec(key);
  }

  /** What the handler's two backends hold: the cookie jar's entries and local storage's items. */
  datatype StoreState = StoreState(entries: Entries, items: map<string, string>)

  /** The handler of one experiment, over the page's cookie jar and local storage. */
  class StorageHandler {
    const storageType: StorageType
    const experimentId: string
    const storageKey: string
    const jar: CookieJar
    const local: LocalStore
    /** The operations called on this handler so far, in order. */
    ghost var calls: seq<StoreCall>

    ghost predicate Valid()
      reads this, jar
    {
      experimentId != "" && storageKey == StorageKey(experimentId) && jar.Valid()
    }

    /** The constructor's success path: the experiment id is present and non-empty. */
    constructor(requestedType: Option<string>, experimentId: string, jar: CookieJar, local: LocalStore)
      requires experimentId != "" && jar.Valid()
      ensures Valid() && calls == []
      ensures storageType == ResolveStorageType(requestedType)
      ensures this.experimentId == experimentId && this.jar == jar && this.local == local
    {
      storageType := ResolveStorageType(requestedType);
      this.experimentId := experimentId;
      storageKey := StorageKey(experimentId);
      this.jar := jar;
      this.local := local;
      calls := [];
    }

    /** Whether every access to the chosen backend throws. */
    predicate Blocked() {
      if storageType == Local then local.blocked else jar.blocked
    }

    /** Whether a value written through this handler can read back: always locally, for cookies when the key is a usable name. */
    predicate ReadsBack() {
      storageType == Local || ValidCookieName(storageKey)
    }

    /** What the backends hold now. */
    function State(): StoreState
      reads jar, local
    {
      StoreState(jar.entries, local.items)
    }

    /**
     * What `getAssignedVariant()` returns in state `s`: the stored id, or None when nothing is
     * stored, the backend is blocked, or the stored text is not a valid percent-encoding. The
     * cookie is looked up by name in the jar; `GetAssignedVariant` parses the cookie string.
     */
    function ReadIn(s: StoreState): Option<string> {
      if storageType == Local then
        if local.blocked || storageKey !in s.items then None else Some(s.items[storageKey])
      else if jar.blocked then None
      else
        match Lookup(s.entries, storageKey)
        case None => None
        case Some(raw) => Decode(raw)
    }

    /** What a read returns now. */
    function Stored(): Option<string>
      reads jar, local
    {
      ReadIn(State())
    }

    /** The state `setAssignedVariant(variantId)` at time `now` leaves after `s`. */
    function AfterSet(s: StoreState, variantId: Option<string>, now: nat): (t: StoreState)
      ensures variantId.None? || variantId == Some("") || Blocked() ==> t == s
      ensures storageType == Local ==> t.entries == s.entries
      ensures storageType == Cookie ==> t.items == s.items
    {
      if variantId.None? || variantId.value == "" then s
      else if storageType == Local then
        if local.blocked then s else s.(items := s.items[storageKey := variantId.value])
      else if jar.blocked then s
      else s.(entries := AssignCookie(s.entries, storageKey + "=" + Encode(variantId.value),
                                      now + DefaultCookieExpiryDays * MsPerDay))
    }

    /** The state `clearAssignedVariant()` leaves after `s`. */
    function AfterClear(s: StoreState): (t: StoreState)
      ensures Blocked() ==> t == s
      ensures storageType == Local ==> t.entries == s.entries
      ensures storageType == Cookie ==> t.items == s.items
    {
      if storageType == Local then
        if local.blocked then s else s.(items := s.items - {storageKey})
      else if jar.blocked then s
      else s.(entries := AssignCookie(s.entries, storageKey + "=", 0))
    }

    /** Set then get: a non-empty id written under a usable key reads back, unless the backend is blocked. */
    lemma {:induction false} SetThenGet(s: StoreState, id: string, now: nat)
      requires WellFormed(s.entries) && id != "" && ReadsBack()
      ensures ReadIn(AfterSet(s, Some(id), now)) == if Blocked() then None else Some(id)
    {
      if storageType == Cookie && !jar.blocked {
        var encoded := Encode(id);
        var expires := now + DefaultCookieExpiryDays * MsPerDay;
        EncodedIsCookieSafe(id);
        AssignStores(s.entries, storageKey, encoded, expires);
        PutWellFormed(s.entries, storageKey, encoded);
        PutLookup(s.entries, storageKey, encoded, storageKey);
        DecodeEncode(id);
      }
    }

    /** Clear then get: after a clear nothing reads back, whatever the key. */
    lemma {:induction false} ClearThenGet(s: StoreState)
      requires WellFormed(s.entries) && storageKey != ""
      ensures ReadIn(AfterClear(s)) == None
    {
      if storageType == Cookie && !jar.blocked {
        AssignWellFormed(s.entries, storageKey + "=", 0);
        AssignDeletes(s.entries, storageKey);
      }
    }

    /** A set or a clear keeps the jar well formed. */
    lemma {:induction false} StepsWellFormed(s: StoreState, variantId: Option<string>, now: nat)
      requires WellFormed(s.entries)
      ensures WellFormed(AfterSet(s, variantId, now).entries) && WellFormed(AfterClear(s).entries)
    {
      if variantId.Some? {
        AssignWellFormed(s.entries, storageKey + "=" + Encode(variantId.value), now + DefaultCookieExpiryDays * MsPerDay);
      }
      AssignWellFormed(s.entries, storageKey + "=", 0);
    }

    /** A set changes only this handler's cookie, when its key is a usable cookie name. */
    lemma {:induction false} SetFrame(s: StoreState, variantId: Option<string>, now: nat)
      requires ValidCookieName(storageKey)
      ensures forall name :: name != storageKey ==>
                Lookup(AfterSet(s, variantId, now).entries, name) == Lookup(s.entries, name)
    {
      if variantId.Some? && variantId.value != "" && storageType == Cookie && !jar.blocked {
        var encoded := Encode(variantId.value);
        EncodedIsCookieSafe(variantId.value);
        CookieNameOfHead(storageKey, encoded);
        var after := AssignCookie(s.entries, storageKey + "=" + encoded, now + DefaultCookieExpiryDays * MsPerDay);
        assert AfterSet(s, variantId, now).entries == after;
      }
    }

    /** A clear changes only this handler's cookie, when its key is a usable cookie name. */
    lemma {:induction false} ClearFrame(s: StoreState)
      requires ValidCookieName(storageKey)
      ensures forall name :: name != storageKey ==>
                Lookup(AfterClear(s).entries, name) == Lookup(s.entries, name)
    {
      if storageType == Cookie && !jar.blocked {
        CookieNameOfHead(storageKey, "");
        assert storageKey + "=" + "" == storageKey + "=";
      }
    }

    /** The state after one call. */
    function Step(s: StoreState, c: StoreCall, now: nat): StoreState {
      match c
      case Open => s
      case Read => s
      case Clear => AfterClear(s)
      case Write(variantId) => AfterSet(s, variantId, now)
    }

    /** The state after the calls `cs`, made in order at time `now`, starting from `s`. */
    function Replay(s: StoreState, cs: seq<StoreCall>, now: nat): StoreState
      decreases |cs|
    {
      if cs == [] then s else Replay(Step(s, cs[0], now), cs[1..], now)
    }

    /** Replaying one more call is one more step. */
    lemma {:induction false} ReplayAppend(s: StoreState, cs: seq<StoreCall>, c: StoreCall, now: nat)
      ensures Replay(s, cs + [c], now) == Step(Replay(s, cs, now), c, now)
      decreases |cs|
    {
      if cs == [] {
        assert [c][1..] == [];
      } else {
        assert (cs + [c])[0] == cs[0];
        assert (cs + [c])[1..] == cs[1..] + [c];
        ReplayAppend(Step(s, cs[0], now), cs[1..], c, now);
      }
    }

    /** Replaying `a` then `b` is replaying `a + b`. */
    lemma {:induction false} ReplayConcat(s: StoreState, a: seq<StoreCall>, b: seq<StoreCall>, now: nat)
      ensures Replay(s, a + b, now) == Replay(Replay(s, a, now), b, now)
      decreases |a|
    {
      if a == [] {
        assert a + b == b;
      } else {
        assert (a + b)[0] == a[0];
        assert (a + b)[1..] == a[1..] + b;
        ReplayConcat(Step(s, a[0], now), a[1..], b, now);
      }
    }

    /** Tier two's opening calls: a read leaves the state alone, a read then a clear is a clear. */
    lemma {:induction false} ReplayPrefix(s: StoreState, cleared: bool, now: nat)
      ensures Replay(s, if cleared then [Read, Clear] else [Read], now) == if cleared then AfterClear(s) else s
    {
      assert [Read][1..] == [] && [Read, Clear][1..] == [Clear] && [Clear][1..] == [];
    }

    /** Calls that neither clear nor write leave the backends as they were. */
    lemma {:induction false} ReplayReadsOnly(s: StoreState, cs: seq<StoreCall>, now: nat)
      requires Writes(cs) == 0 && Clears(cs) == 0
      ensures Replay(s, cs, now) == s
      decreases |cs|
    {
      if cs != [] {
        ReplayReadsOnly(s, cs[1..], now);
      }
    }

    /** `getAssignedVariant()`. */
    method GetAssignedVariant() returns (v: Option<string>)
      requires Valid()
      modifies this
      ensures Valid()
      ensures v == Stored()
      ensures calls == old(calls) + [Read]
    {
      calls := calls + [Read];
      if storageType == Local {
        v := if local.blocked then None else local.GetItem(storageKey);
      } else if jar.blocked {
        v := None;
      } else {
        var raw := CookieValue(jar.Cookie(), storageKey);
        v := if raw.None? then None else Decode(raw.value);
        CookieValueLookup(jar.entries, storageKey);
      }
    }

    /** `setAssignedVariant(variantId)`; `now` is the clock reading, in ms since the epoch. */
    method SetAssignedVariant(variantId: Option<string>, now: nat)
      requires Valid()
      modifies this, jar, local
      ensures Valid()
      ensures calls == old(calls) + [Write(variantId)]
      ensures State() == AfterSet(old(State()), variantId, now)
      // Read-back: what was written is what is read, when the key is a usable cookie name.
      ensures variantId.Some? && variantId.value != "" && ReadsBack() ==>
                Stored() == if Blocked() then None else variantId
      // Only this handler's cookie changes.
      ensures ValidCookieName(storageKey) ==>
                forall name :: name != storageKey ==> Lookup(jar.entries, name) == Lookup(old(jar.entries), name)
    {
      ghost var before := State();
      calls := calls + [Write(variantId)];
      if ValidCookieName(storageKey) {
        SetFrame(before, variantId, now);
      }
      if variantId.None? || variantId.value == "" {
        return;
      }
      if ReadsBack() {
        SetThenGet(before, variantId.value, now);
      }
      var id := variantId.value;
      var encoded := Encode(id);
      if storageType == Local {
        if !local.blocked {
          local.SetItem(storageKey, id);
        }
      } else if !jar.blocked {
        jar.Assign(storageKey + "=" + encoded, now + DefaultCookieExpiryDays * MsPerDay);
      }
    }

    /** `clearAssignedVariant()`. */
    method ClearAssignedVariant()
      requires Valid()
      modifies this, jar, local
      ensures Valid()
      ensures calls == old(calls) + [Clear]
      ensures State() == AfterClear(old(State()))
      ensures Stored() == None
      // Only this handler's cookie changes.
      ensures ValidCookieName(storageKey) ==>
                forall name :: name != storageKey ==> Lookup(jar.entries, name) == Lookup(old(jar.entries), name)
    {
      ghost var before := State();
      calls := calls + [Clear];
      if ValidCookieName(storageKey) {
        ClearFrame(before);
      }
      ClearThenGet(before);
      if storageType == Local {
        if !local.blocked {
          local.RemoveItem(storageKey);
        }
      } else if !jar.blocked {
        jar.Assign(storageKey + "=", 0);
      }
    }
  }

  /** `new StorageHandler(storageType, experimentId)`: throws without a non-empty experiment id. */
  method NewStorageHandler(requestedType: Option<string>, experimentId: Option<string>, jar: CookieJar, local: LocalStore)
    returns (r: Result<StorageHandler, string>)
    requires jar.Valid()
    ensures r.Failure? <==> experimentId.None? || experimentId == Some("")
    ensures r.Failure? ==> r.error == MissingIdMessage
    ensures r.Success? ==>
              fresh(r.value) && r.value.Valid() && r.value.jar == jar && r.value.local == local
              && r.value.storageType == ResolveStorageType(requestedType)
              && r.value.storageKey == StoragePrefix + experimentId.value
  {
    if experimentId.None? || experimentId.value == "" {
      return Failure(MissingIdMessage);
    }
    var h := new StorageHandler(requestedType, experimentId.value, jar, local);
    return Success(h);
  }
}
