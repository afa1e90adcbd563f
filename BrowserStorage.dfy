/**
 * The two browser stores the persistence handler writes to, as the handler's tests mock them:
 * a cookie jar behind `document.cookie` and a `localStorage` area. Either may refuse access
 * (cookies disabled, storage blocked by the browser), in which case every access throws.
 */
module BrowserStorage {
  import opened Wrappers
  import opened Strings

  /** Cookie name/value pairs in the order the jar enumerates them. */
  type Entries = seq<(string, string)>

  /** The value stored under `name`. */
  function Lookup(entries: Entries, name: string): (v: Option<string>)
    ensures v.Some? <==> exists i :: 0 <= i < |entries| && entries[i].0 == name
  {
    if entries == [] then None
    else if entries[0].0 == name then Some(entries[0].1)
    else Lookup(entries[1..], name)
  }

  /** Assigning a property of the mock's store object: overwrite in place, or append a new name. */
  function Put(entries: Entries, name: string, value: string): (r: Entries)
    ensures Lookup(r, name) == Some(value)
    ensures |r| == |entries| + (if Lookup(entries, name).None? then 1 else 0)
  {
    if entries == [] then [(name, value)]
    else if entries[0].0 == name then [(name, value)] + entries[1..]
    else
      var rest := Put(entries[1..], name, value);
      assert ([entries[0]] + rest)[1..] == rest;
      [entries[0]] + rest
  }

  /** `delete store[name]`. */
  function Remove(entries: Entries, name: string): (r: Entries)
    ensures Lookup(r, name) == None
    ensures |r| <= |entries|
    ensures Lookup(entries, name).None? ==> r == entries
  {
    if entries == [] then []
    else if entries[0].0 == name then Remove(entries[1..], name)
    else
      var rest := Remove(entries[1..], name);
      assert ([entries[0]] + rest)[1..] == rest;
      assert Lookup(entries, name).None? ==> entries == [entries[0]] + entries[1..];
      [entries[0]] + rest
  }

  /** Text the mock can hold as a name or value: it came out of a split on `;` and then on `=`. */
  predicate Clean(s: string) {
    ';' !in s && '=' !in s
  }

  /** The shape every state of the mock jar has. */
  predicate WellFormed(entries: Entries) {
    (forall i, j :: 0 <= i < j < |entries| ==> entries[i].0 != entries[j].0)
    && (forall i :: 0 <= i < |entries| ==> Clean(entries[i].0) && Clean(entries[i].1) && Trimmed(entries[i].0))
  }

  lemma {:induction false} PutLookup(entries: Entries, name: string, value: string, other: string)
    ensures Lookup(Put(entries, name, value), other) == if other == name then Some(value) else Lookup(entries, other)
    decreases |entries|
  {
    if entries != [] && entries[0].0 != name {
      PutLookup(entries[1..], name, value, other);
      assert ([entries[0]] + Put(entries[1..], name, value))[1..] == Put(entries[1..], name, value);
    } else if entries != [] {
      assert ([(name, value)] + entries[1..])[1..] == entries[1..];
    }
  }

  lemma {:induction false} RemoveLookup(entries: Entries, name: string, other: string)
    ensures Lookup(Remove(entries, name), other) == if other == name then None else Lookup(entries, other)
    decreases |entries|
  {
    if entries != [] {
      RemoveLookup(entries[1..], name, other);
      if entries[0].0 != name {
        assert ([entries[0]] + Remove(entries[1..], name))[1..] == Remove(entries[1..], name);
      }
    }
  }

  /** Every entry of `Put(entries, name, value)` is `(name, value)` or an entry of `entries`. */
  lemma {:induction false} PutEntries(entries: Entries, name: string, value: string)
    ensures forall p :: p in Put(entries, name, value) ==> p == (name, value) || p in entries
    ensures forall p :: p in Put(entries, name, value) && p.0 != name ==> p in entries
    ensures forall p :: p in entries && p.0 != name ==> p in Put(entries, name, value)
    decreases |entries|
  {
    if entries != [] && entries[0].0 != name {
      PutEntries(entries[1..], name, value);
      assert entries == [entries[0]] + entries[1..];
    } else if entries != [] {
      assert entries == [entries[0]] + entries[1..];
    }
  }

  lemma {:induction false} RemoveEntries(entries: Entries, name: string)
    ensures forall p :: p in Remove(entries, name) <==> p in entries && p.0 != name
    decreases |entries|
  {
    if entries != [] {
      RemoveEntries(entries[1..], name);
      assert entries == [entries[0]] + entries[1..];
    }
  }

  lemma {:induction false} DistinctByMembership(entries: Entries)
    requires forall i, j :: 0 <= i < j < |entries| ==> entries[i].0 != entries[j].0
    ensures forall p, q :: p in entries && q in entries && p.0 == q.0 ==> p == q
  {
    forall p, q | p in entries && q in entries && p.0 == q.0 ensures p == q {
      var i :| 0 <= i < |entries| && entries[i] == p;
      var j :| 0 <= j < |entries| && entries[j] == q;
      assert i == j;
    }
  }

  lemma {:induction false} PutWellFormed(entries: Entries, name: string, value: string)
    requires WellFormed(entries) && Clean(name) && Clean(value) && Trimmed(name)
    ensures WellFormed(Put(entries, name, value))
    decreases |entries|
  {
    if entries != [] {
      var tail := entries[1..];
      WellFormedTail(entries);
      if entries[0].0 == name {
        assert Put(entries, name, value) == [(name, value)] + tail;
        forall j | 0 <= j < |tail| ensures tail[j].0 != name {
          assert tail[j] == entries[j + 1];
        }
        ConsWellFormed((name, value), tail);
      } else {
        PutWellFormed(tail, name, value);
        assert Put(entries, name, value) == [entries[0]] + Put(tail, name, value);
        PutHeadDistinct(entries, name, value);
        assert Clean(entries[0].0) && Clean(entries[0].1) && Trimmed(entries[0].0);
        ConsWellFormed(entries[0], Put(tail, name, value));
      }
    }
  }

  /** Storing a name other than the first keeps the first entry's name unique. */
  lemma {:induction false} PutHeadDistinct(entries: Entries, name: string, value: string)
    requires WellFormed(entries) && entries != [] && entries[0].0 != name
    ensures forall j :: 0 <= j < |Put(entries[1..], name, value)| ==> Put(entries[1..], name, value)[j].0 != entries[0].0
  {
    var tail := entries[1..];
    var put := Put(tail, name, value);
    PutEntries(tail, name, value);
    forall j | 0 <= j < |put| ensures put[j].0 != entries[0].0 {
      assert put[j] in put;
      if put[j] != (name, value) {
        var k :| 0 <= k < |tail| && tail[k] == put[j];
        assert entries[k + 1] == put[j];
      }
    }
  }

  lemma {:induction false} RemoveWellFormed(entries: Entries, name: string)
    requires WellFormed(entries)
    ensures WellFormed(Remove(entries, name))
    decreases |entries|
  {
    if entries != [] {
      var tail := entries[1..];
      WellFormedTail(entries);
      RemoveWellFormed(tail, name);
      if entries[0].0 != name {
        var rem := Remove(tail, name);
        assert Remove(entries, name) == [entries[0]] + rem;
        RemoveHeadDistinct(entries, name);
        assert Clean(entries[0].0) && Clean(entries[0].1) && Trimmed(entries[0].0);
        ConsWellFormed(entries[0], rem);
      }
    }
  }

  /** Removing a name keeps the first entry's name unique among the rest. */
  lemma {:induction false} RemoveHeadDistinct(entries: Entries, name: string)
    requires WellFormed(entries) && entries != []
    ensures forall j :: 0 <= j < |Remove(entries[1..], name)| ==> Remove(entries[1..], name)[j].0 != entries[0].0
  {
    var tail := entries[1..];
    var rem := Remove(tail, name);
    RemoveEntries(tail, name);
    forall j | 0 <= j < |rem| ensures rem[j].0 != entries[0].0 {
      assert rem[j] in rem;
      var k :| 0 <= k < |tail| && tail[k] == rem[j];
      assert entries[k + 1] == rem[j];
    }
  }

  /** An entry whose name is unused and whose text is clean can head a well-formed jar. */
  lemma {:induction false} ConsWellFormed(e: (string, string), rest: Entries)
    requires WellFormed(rest) && Clean(e.0) && Clean(e.1) && Trimmed(e.0)
    requires forall j :: 0 <= j < |rest| ==> rest[j].0 != e.0
    ensures WellFormed([e] + rest)
  {
    var r := [e] + rest;
    forall i, j | 0 <= i < j < |r| ensures r[i].0 != r[j].0 {
      assert r[j] == rest[j - 1];
      if i > 0 { assert r[i] == rest[i - 1]; }
    }
    forall i | 0 <= i < |r| ensures Clean(r[i].0) && Clean(r[i].1) && Trimmed(r[i].0) {
      if i > 0 { assert r[i] == rest[i - 1]; }
    }
  }

  lemma {:induction false} WellFormedTail(entries: Entries)
    requires WellFormed(entries) && entries != []
    ensures WellFormed(entries[1..])
  {
    var tail := entries[1..];
    forall i, j | 0 <= i < j < |tail| ensures tail[i].0 != tail[j].0 {
      assert tail[i] == entries[i + 1] && tail[j] == entries[j + 1];
    }
    forall i | 0 <= i < |tail| ensures Clean(tail[i].0) && Clean(tail[i].1) && Trimmed(tail[i].0) {
      assert tail[i] == entries[i + 1];
    }
  }

  /** A name the mock can never hold is never found. */
  lemma {:induction false} LookupImpossibleName(entries: Entries, name: string)
    requires WellFormed(entries) && !(Clean(name) && Trimmed(name))
    ensures Lookup(entries, name) == None
    decreases |entries|
  {
    if entries != [] {
      WellFormedTail(entries);
      LookupImpossibleName(entries[1..], name);
    }
  }

  /** One `name=value` row of the cookie string. */
  function Row(entry: (string, string)): string {
    entry.0 + "=" + entry.1
  }

  function Rows(entries: Entries): (rows: seq<string>)
    ensures |rows| == |entries|
    ensures forall i :: 0 <= i < |entries| ==> rows[i] == Row(entries[i])
  {
    if entries == [] then [] else [Row(entries[0])] + Rows(entries[1..])
  }

  /**
   * The mock's `document.cookie` getter: the rows joined with `"; "`. Splitting the text on `"; "`
   * gives the rows back, as long as no name or value holds a `;`.
   */
  function CookieString(entries: Entries): (s: string)
    ensures entries == [] ==> s == ""
    ensures WellFormed(entries) && entries != [] ==> Split(s, "; ") == Rows(entries)
  {
    if WellFormed(entries) && entries != [] then
      RowsFreeOf(entries);
      SplitJoin(Rows(entries), "; ");
      Join(Rows(entries), "; ")
    else Join(Rows(entries), "; ")
  }

  /** No row of a well-formed jar contains `;`. */
  lemma {:induction false} RowsFreeOf(entries: Entries)
    requires WellFormed(entries)
    ensures FreeOf(Rows(entries), ';')
  {
    var rows := Rows(entries);
    forall i | 0 <= i < |rows| ensures ';' !in rows[i] {
      assert rows[i] == entries[i].0 + "=" + entries[i].1;
    }
  }

  /** The name a `document.cookie` assignment `head` addresses: the trimmed text before its first `=`. */
  function CookieName(head: string): string {
    Trim(Split(Split(head, ";")[0], "=")[0])
  }

  /** Storing `name` leaves every other name as it was. */
  lemma {:induction false} PutFrame(entries: Entries, name: string, value: string)
    ensures forall n :: n != name ==> Lookup(Put(entries, name, value), n) == Lookup(entries, n)
  {
    forall n | n != name ensures Lookup(Put(entries, name, value), n) == Lookup(entries, n) {
      PutLookup(entries, name, value, n);
    }
  }

  /** Deleting `name` leaves every other name as it was. */
  lemma {:induction false} RemoveFrame(entries: Entries, name: string)
    ensures forall n :: n != name ==> Lookup(Remove(entries, name), n) == Lookup(entries, n)
  {
    forall n | n != name ensures Lookup(Remove(entries, name), n) == Lookup(entries, n) {
      RemoveLookup(entries, name, n);
    }
  }

  /** `new Date('1971-01-01').getTime()`: the mock treats an earlier expiry as a deletion. */
  const ExpiryCutoffMs: int := 31536000000

  /**
   * The mock's `document.cookie` setter for an assignment `head;expires=<date>;path=/;SameSite=Lax`,
   * where the date is `expiresMs` milliseconds after the epoch (0 for the epoch date the handler
   * writes to delete). The part before the first `;` is split on `=`; a name with a value is stored
   * trimmed, or deleted when the expiry lies before 1971; a name without a value is deleted only by
   * the epoch date.
   */
  function AssignCookie(entries: Entries, head: string, expiresMs: int): (r: Entries)
    ensures forall n :: n != CookieName(head) ==> Lookup(r, n) == Lookup(entries, n)
  {
    var nameValue := Split(head, ";")[0];
    var pair := Split(nameValue, "=");
    var name := pair[0];
    assert Trim(name) == CookieName(head);
    if name != "" && |pair| >= 2 then
      if expiresMs < ExpiryCutoffMs then
        RemoveFrame(entries, Trim(name));
        Remove(entries, Trim(name))
      else
        PutFrame(entries, Trim(name), Trim(pair[1]));
        Put(entries, Trim(name), Trim(pair[1]))
    else if name != "" && expiresMs == 0 then
      RemoveFrame(entries, Trim(name));
      Remove(entries, Trim(name))
    else entries
  }

  /** The mock jar only ever holds clean, trimmed, distinct names. */
  lemma {:induction false} AssignWellFormed(entries: Entries, head: string, expiresMs: int)
    requires WellFormed(entries)
    ensures WellFormed(AssignCookie(entries, head, expiresMs))
  {
    var nameValue := Split(head, ";")[0];
    var pair := Split(nameValue, "=");
    SplitPieces(head, ';');
    SplitPieces(nameValue, '=');
    var name := pair[0];
    TrimSpec(name);
    assert Clean(Trim(name));
    if |pair| >= 2 {
      TrimSpec(pair[1]);
      assert Clean(Trim(pair[1]));
      PutWellFormed(entries, Trim(name), Trim(pair[1]));
    }
    RemoveWellFormed(entries, Trim(name));
  }

  /** The `document.cookie` of the handler's tests. */
  class CookieJar {
    var entries: Entries
    const blocked: bool

    ghost predicate Valid()
      reads this
    {
      WellFormed(entries)
    }

    /** A fresh, empty jar; `blocked` says whether every access to it throws. */
    constructor(blocked: bool)
      ensures Valid() && entries == [] && this.blocked == blocked
    {
      entries := [];
      this.blocked := blocked;
    }

    /** Reading `document.cookie`. */
    function Cookie(): string
      reads this
    {
      CookieString(entries)
    }

    /** Assigning `document.cookie = head + ";expires=" + <date> + ";path=/;SameSite=Lax"`. */
    method Assign(head: string, expiresMs: int)
      requires Valid()
      modifies this
      ensures Valid()
      ensures entries == AssignCookie(old(entries), head, expiresMs)
    {
      AssignWellFormed(entries, head, expiresMs);
      entries := AssignCookie(entries, head, expiresMs);
    }
  }

  /** The `localStorage` of the handler's tests. */
  class LocalStore {
    var items: map<string, string>
    const blocked: bool

    constructor(blocked: bool)
      ensures items == map[] && this.blocked == blocked
    {
      items := map[];
      this.blocked := blocked;
    }

    /** `localStorage.getItem(key)`: the stored string, or null. */
    function GetItem(key: string): (v: Option<string>)
      reads this
      ensures v.Some? <==> key in items
      ensures v.Some? ==> v.value == items[key]
    {
      if key in items then Some(items[key]) else None
    }

    /** `localStorage.setItem(key, value)`. */
    method SetItem(key: string, value: string)
      modifies this
      ensures items == old(items)[key := value]
    {
      items := items[key := value];
    }

    /** `localStorage.removeItem(key)`. */
    method RemoveItem(key: string)
      modifies this
      ensures items == old(items) - {key}
    {
      items := items - {key};
    }
  }
}
