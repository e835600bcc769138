// The in-process caches of the plugin: the id <-> directory cache, the 302
// redirect cache keyed by pick code and user agent, the grouped directory
// cache, and the media-information byte cache with its batch operations.
// Eviction (LRU size bounds), expiry (TTL) and the Redis backends are not
// modelled: every cache here holds exactly what was last written to it.

module Cache {
  import opened Wrappers
  import opened Strings
  import opened Base64

  // ------------------------------------------------------------ IdPathCache

  /** `id_to_dir.get(str(id))` */
  function DirById(idToDir: map<string, string>, id: int): (r: Option<string>)
    ensures r.Some? <==> IntToString(id) in idToDir
    ensures r.Some? ==> r.value == idToDir[IntToString(id)]
  {
    var key := IntToString(id);
    if key in idToDir then Some(idToDir[key]) else None
  }

  /**
   * `get_id_by_dir`: the stored id text read back with `int()`; no entry,
   * or an entry that is not an integer, gives `None`.
   */
  function IdByDir(dirToId: map<string, string>, directory: string): (r: Option<int>)
    ensures r.None? <==> directory !in dirToId || ParseInt(dirToId[directory]).None?
    ensures r.Some? ==> ParseInt(dirToId[directory]) == Some(r.value)
  {
    if directory !in dirToId then None else ParseInt(dirToId[directory])
  }

  /** The two maps of `IdPathCache`, updated together by `add_cache`. */
  class IdPathCache {
    var idToDir: map<string, string>
    var dirToId: map<string, string>

    constructor()
      ensures idToDir == map[] && dirToId == map[]
    {
      idToDir := map[];
      dirToId := map[];
    }

    /** `add_cache`: both directions are written, keyed by the decimal text of the id. */
    method AddCache(id: int, directory: string)
      modifies this
      ensures idToDir == old(idToDir)[IntToString(id) := directory]
      ensures dirToId == old(dirToId)[directory := IntToString(id)]
    {
      idToDir := idToDir[IntToString(id) := directory];
      dirToId := dirToId[directory := IntToString(id)];
    }

    method GetDirById(id: int) returns (r: Option<string>)
      ensures r == DirById(idToDir, id)
    {
      var key := IntToString(id);
      if key in idToDir {
        r := Some(idToDir[key]);
      } else {
        r := None;
      }
    }

    method GetIdByDir(directory: string) returns (r: Option<int>)
      ensures r == IdByDir(dirToId, directory)
    {
      if directory !in dirToId {
        return None;
      }
      r := ParseInt(dirToId[directory]);
    }

    /** `clear`: both directions emptied. */
    method Clear()
      modifies this
      ensures idToDir == map[] && dirToId == map[]
    {
      idToDir := map[];
      dirToId := map[];
    }
  }

  /** Right after `add_cache(id, d)` each direction answers with the other. */
  lemma {:induction false} AddThenLookup(idToDir: map<string, string>, dirToId: map<string, string>, id: int, d: string)
    ensures DirById(idToDir[IntToString(id) := d], id) == Some(d)
    ensures IdByDir(dirToId[d := IntToString(id)], d) == Some(id)
  {
    IntToStringRoundTrip(id);
  }

  /**
   * Adding directory `d` under a second id overwrites `d -> id` but leaves
   * the first id still mapped to `d`: the two directions are not kept
   * mutually inverse.
   */
  lemma {:induction false} ReAddLeavesStaleEntry(idToDir: map<string, string>, dirToId: map<string, string>, id1: int, id2: int, d: string)
    requires id1 != id2
    ensures var i2d := idToDir[IntToString(id1) := d][IntToString(id2) := d];
      var d2i := dirToId[d := IntToString(id1)][d := IntToString(id2)];
      DirById(i2d, id1) == Some(d) && IdByDir(d2i, d) == Some(id2)
  {
    if IntToString(id1) == IntToString(id2) {
      IntToStringInjective(id1, id2);
    }
    IntToStringRoundTrip(id2);
  }

  /** After `clear` neither direction knows anything. */
  lemma {:induction false} ClearedLookups(id: int, d: string)
    ensures DirById(map[], id) == None && IdByDir(map[], d) == None
  {
  }

  /** Stripping only removes characters. */
  lemma {:induction false} StripKeepsCharacters(s: string)
    ensures forall i | 0 <= i < |Strip(s)| :: Strip(s)[i] in s
  {
    StripLeftKeepsCharacters(s);
    var l := StripLeft(s);
    assert Strip(s) == StripRight(l);
    forall i | 0 <= i < |Strip(s)|
      ensures Strip(s)[i] in s
    {
      assert StripRight(l)[i] == l[i];
    }
  }

  lemma {:induction false} StripLeftKeepsCharacters(s: string)
    ensures forall i | 0 <= i < |StripLeft(s)| :: StripLeft(s)[i] in s
    decreases |s|
  {
    if |s| > 0 && IsSpace(s[0]) {
      StripLeftKeepsCharacters(s[1..]);
      forall i | 0 <= i < |StripLeft(s)|
        ensures StripLeft(s)[i] in s
      {
        assert StripLeft(s)[i] in s[1..];
      }
    }
  }

  /** A directory whose stored id holds no digit at all reads back as `None`. */
  lemma {:induction false} NonIntegerIdIsNone(dirToId: map<string, string>, d: string, text: string)
    requires forall i | 0 <= i < |text| :: !IsDigit(text[i])
    ensures IdByDir(dirToId[d := text], d) == None
  {
    var t := Strip(text);
    StripKeepsCharacters(text);
    if t != [] {
      assert !IsDigit(t[|t| - 1]);
    }
  }

  // --------------------------------------------------------------- R302Cache

  /** The separator of the two-level key. */
  const KeySeparator: char := '○'

  /** `f"{pick_code}○{ua_code}"` */
  function R302Key(pickCode: string, uaCode: string): string {
    pickCode + [KeySeparator] + uaCode
  }

  /** `key_str.split("○")[0]` */
  function FirstSegment(key: string): (r: string)
    ensures KeySeparator !in r
  {
    Split(key, KeySeparator)[0]
  }

  /** The keys `count_by_pick_code` counts. */
  function PickCodeKeys(keys: set<string>, pickCode: string): set<string> {
    set k | k in keys && FirstSegment(k) == pickCode
  }

  /** The redirect cache of `R302Cache`: its key text to the URL. */
  class R302Cache {
    var entries: map<string, string>

    constructor()
      ensures entries == map[]
    {
      entries := map[];
    }

    /** `set`: the URL stored under the two-level key. */
    method Set(pickCode: string, uaCode: string, url: string)
      modifies this
      ensures entries == old(entries)[R302Key(pickCode, uaCode) := url]
    {
      entries := entries[R302Key(pickCode, uaCode) := url];
    }

    method Get(pickCode: string, uaCode: string) returns (r: Option<string>)
      ensures r.Some? <==> R302Key(pickCode, uaCode) in entries
      ensures r.Some? ==> r.value == entries[R302Key(pickCode, uaCode)]
    {
      var key := R302Key(pickCode, uaCode);
      r := if key in entries then Some(entries[key]) else None;
    }

    /** `count_by_pick_code`: one pass over the keys, counting those whose first segment matches. */
    method CountByPickCode(pickCode: string) returns (count: nat)
      ensures count == |PickCodeKeys(entries.Keys, pickCode)|
    {
      count := 0;
      var remaining := entries.Keys;
      ghost var seen: set<string> := {};
      while remaining != {}
        invariant seen + remaining == entries.Keys && seen !! remaining
        invariant count == |PickCodeKeys(seen, pickCode)|
        decreases |remaining|
      {
        var key :| key in remaining;
        PickCodeKeysAdd(seen, key, pickCode);
        if FirstSegment(key) == pickCode {
          count := count + 1;
        }
        seen := seen + {key};
        remaining := remaining - {key};
      }
      assert seen == entries.Keys;
    }

    method Clear()
      modifies this
      ensures entries == map[]
    {
      entries := map[];
    }
  }

  /** Adding one key to the counted set adds one to the count exactly when it matches. */
  lemma {:induction false} PickCodeKeysAdd(keys: set<string>, key: string, pickCode: string)
    requires key !in keys
    ensures |PickCodeKeys(keys + {key}, pickCode)|
      == |PickCodeKeys(keys, pickCode)| + (if FirstSegment(key) == pickCode then 1 else 0)
  {
    if FirstSegment(key) == pickCode {
      assert PickCodeKeys(keys + {key}, pickCode) == PickCodeKeys(keys, pickCode) + {key};
    } else {
      assert PickCodeKeys(keys + {key}, pickCode) == PickCodeKeys(keys, pickCode);
    }
  }

  /** A key built from a pick code without the separator has that pick code as its first segment. */
  lemma {:induction false} KeyFirstSegment(pickCode: string, uaCode: string)
    requires KeySeparator !in pickCode
    ensures FirstSegment(R302Key(pickCode, uaCode)) == pickCode
  {
    var s := R302Key(pickCode, uaCode);
    var k := IndexOf(s, KeySeparator);
    assert s[|pickCode|] == KeySeparator;
    assert s[..|pickCode|] == pickCode;
  }

  /**
   * Storing a new entry for a pick code without the separator raises its
   * count by one and leaves every other pick code's count alone.
   */
  lemma {:induction false} SetCountsOnce(keys: set<string>, pickCode: string, uaCode: string, other: string)
    requires KeySeparator !in pickCode
    requires R302Key(pickCode, uaCode) !in keys
    requires other != pickCode
    ensures |PickCodeKeys(keys + {R302Key(pickCode, uaCode)}, pickCode)| == |PickCodeKeys(keys, pickCode)| + 1
    ensures |PickCodeKeys(keys + {R302Key(pickCode, uaCode)}, other)| == |PickCodeKeys(keys, other)|
  {
    KeyFirstSegment(pickCode, uaCode);
    PickCodeKeysAdd(keys, R302Key(pickCode, uaCode), pickCode);
    PickCodeKeysAdd(keys, R302Key(pickCode, uaCode), other);
  }

  /** A pick code that itself contains the separator is never counted: no first segment can equal it. */
  lemma {:induction false} SeparatorPickCodeCountsNothing(keys: set<string>, pickCode: string)
    requires KeySeparator in pickCode
    ensures PickCodeKeys(keys, pickCode) == {}
  {
  }

  // ------------------------------------------------------ DiskCacheDirectory

  /** The `paths` argument: one path, or a list of them. */
  datatype PathsArg = OnePath(path: string) | PathList(paths: seq<string>)

  /** `{paths} if isinstance(paths, str) else set(paths)` */
  function PathSet(arg: PathsArg): (r: set<string>)
    ensures arg.OnePath? ==> r == {arg.path}
    ensures arg.PathList? ==> forall p :: p in r <==> p in arg.paths
  {
    match arg
    case OnePath(p) => {p}
    case PathList(ps) => set p | p in ps
  }

  /** `get_group_paths`: the stored set, or the empty set for a group never stored. */
  function GroupPaths(groups: map<string, set<string>>, group: string): set<string> {
    if group in groups then groups[group] else {}
  }

  /** `is_in_cache`: the group exists and holds the path. */
  predicate InCache(groups: map<string, set<string>>, group: string, path: string) {
    group in groups && path in groups[group]
  }

  /** The store after `add_to_group`: the union of what was there and the new paths. */
  function AddedToGroup(groups: map<string, set<string>>, group: string, arg: PathsArg): map<string, set<string>> {
    groups[group := GroupPaths(groups, group) + PathSet(arg)]
  }

  /** The group sets of `DiskCacheDirectory`, one entry per group name. */
  class DiskCacheDirectory {
    var groups: map<string, set<string>>

    constructor()
      ensures groups == map[]
    {
      groups := map[];
    }

    /** `add_to_group`: read the group's set, take the union, write it back. */
    method AddToGroup(group: string, arg: PathsArg)
      modifies this
      ensures groups == AddedToGroup(old(groups), group, arg)
    {
      var toAdd := PathSet(arg);
      var existing := if group in groups then groups[group] else {};
      groups := groups[group := existing + toAdd];
    }

    method IsInCache(group: string, path: string) returns (r: bool)
      ensures r == InCache(groups, group, path)
    {
      r := group in groups && path in groups[group];
    }

    method GetGroupPaths(group: string) returns (r: set<string>)
      ensures r == GroupPaths(groups, group)
    {
      r := if group in groups then groups[group] else {};
    }

    /** `clear_group`: the group's entry, if any, is deleted. */
    method ClearGroup(group: string)
      modifies this
      ensures groups == old(groups) - {group}
    {
      if group in groups {
        groups := groups - {group};
      }
    }
  }

  /** After `add_to_group` the group holds exactly the old paths and the new ones; no other group changes. */
  lemma {:induction false} AddToGroupContents(groups: map<string, set<string>>, group: string, arg: PathsArg, path: string, g: string)
    ensures InCache(AddedToGroup(groups, group, arg), group, path) <==> InCache(groups, group, path) || path in PathSet(arg)
    ensures g != group ==> (InCache(AddedToGroup(groups, group, arg), g, path) <==> InCache(groups, g, path))
  {
  }

  /** Adding the same paths twice stores the same as adding them once. */
  lemma {:induction false} AddToGroupIdempotent(groups: map<string, set<string>>, group: string, arg: PathsArg)
    ensures AddedToGroup(AddedToGroup(groups, group, arg), group, arg) == AddedToGroup(groups, group, arg)
  {
    var once := AddedToGroup(groups, group, arg);
    assert GroupPaths(once, group) + PathSet(arg) == GroupPaths(once, group);
  }

  /** A group never stored, or cleared, holds nothing; `is_in_cache` agrees with `get_group_paths`. */
  lemma {:induction false} InCacheMeansGroupPaths(groups: map<string, set<string>>, group: string, path: string)
    ensures InCache(groups, group, path) <==> path in GroupPaths(groups, group)
    ensures !InCache(groups - {group}, group, path)
  {
  }

  // ---------------------------------------------------------- OofFastMiCache

  /** The standard Base64 table of `b64encode`. */
  const StandardAlphabet: string := "ABCDEFGHIJKLMNOPQRSTUVWXYZabcdefghijklmnopqrstuvwxyz0123456789+/"

  /** A value in a `batch_set` item, as far as the method looks at it. */
  datatype Value = Null | Text(s: string) | Blob(b: seq<Byte>) | Number(n: int)

  /** Python truthiness of such a value. */
  predicate Truthy(v: Value) {
    match v
    case Null => false
    case Text(s) => s != ""
    case Blob(b) => b != []
    case Number(n) => n != 0
  }

  /**
   * An item of `batch_set`: a dict with "sha1" and "data" (a missing key
   * reads as `Null`), or a pair whose second element starts with the key
   * and the compressed bytes.
   */
  datatype Item = DictItem(sha1: Value, data: Value) | PairItem(key: Value, payload: Value)

  /** The bytes of a byte string read as the characters `b64decode` sees. */
  function BytesAsText(b: seq<Byte>): (r: string)
    ensures |r| == |b|
  {
    seq(|b|, i requires 0 <= i < |b| => b[i] as char)
  }

  /**
   * `b64decode` of a value through the given decoder of text; anything that
   * is neither text nor bytes is a TypeError.
   */
  function DecodeValue(decode: string -> Result<seq<Byte>, string>, v: Value): Result<seq<Byte>, string> {
    match v
    case Text(s) => decode(s)
    case Blob(b) => decode(BytesAsText(b))
    case _ => Err("TypeError")
  }

  /** One item's effect on the store, or the error that aborts the transaction. */
  function SetItem(store: map<string, seq<Byte>>, item: Item, decode: string -> Result<seq<Byte>, string>): Result<map<string, seq<Byte>>, string> {
    match item
    case DictItem(key, data) =>
      if !Truthy(data) then Ok(store)
      else
        var bytes := DecodeValue(decode, data);
        if bytes.Err? then Err(bytes.error)
        else if key.Text? then Ok(store[key.s := bytes.value])
        else Ok(store)
    case PairItem(key, payload) =>
      if key.Text? && payload.Blob? then Ok(store[key.s := payload.b]) else Ok(store)
  }

  /**
   * `batch_set`: the items applied in order inside one transaction; an error
   * in any item rolls the whole batch back.
   */
  function BatchSetSpec(store: map<string, seq<Byte>>, items: seq<Item>, decode: string -> Result<seq<Byte>, string>): Result<map<string, seq<Byte>>, string>
    decreases |items|
  {
    if items == [] then Ok(store)
    else
      var next := SetItem(store, items[0], decode);
      if next.Err? then next else BatchSetSpec(next.value, items[1..], decode)
  }

  /** `batch_get`: every requested key, mapped to the Base64 text of its bytes or to `None`. */
  function BatchGetSpec(store: map<string, seq<Byte>>, keys: seq<string>): (r: map<string, Option<string>>)
    ensures forall k :: k in r <==> k in keys
    ensures forall k | k in r :: (r[k].Some? <==> k in store)
    ensures forall k | k in r && k in store :: r[k] == Some(Encode(StandardAlphabet, store[k]))
  {
    map k | k in keys :: if k in store then Some(Encode(StandardAlphabet, store[k])) else None
  }

  /** The byte store of `OofFastMiCache`, keyed by SHA-1 text. */
  class OofFastMiCache {
    var store: map<string, seq<Byte>>

    constructor()
      ensures store == map[]
    {
      store := map[];
    }

    /** `batch_set`: the store changes only when every item went through. */
    method BatchSet(items: seq<Item>, decode: string -> Result<seq<Byte>, string>) returns (r: Result<(), string>)
      modifies this
      ensures BatchSetSpec(old(store), items, decode).Ok? ==> r.Ok? && store == BatchSetSpec(old(store), items, decode).value
      ensures BatchSetSpec(old(store), items, decode).Err? ==> r == Err(BatchSetSpec(old(store), items, decode).error) && store == old(store)
    {
      var pending := store;
      var rest := items;
      while rest != []
        invariant BatchSetSpec(pending, rest, decode) == BatchSetSpec(store, items, decode)
        decreases |rest|
      {
        var item := rest[0];
        var next := SetItem(pending, item, decode);
        if next.Err? {
          return Err(next.error);
        }
        pending := next.value;
        rest := rest[1..];
      }
      store := pending;
      r := Ok(());
    }

    /** `batch_get`: the hits first, then `None` for every key that missed. */
    method BatchGet(keys: seq<string>) returns (results: map<string, Option<string>>)
      ensures results == BatchGetSpec(store, keys)
    {
      var retrieved: map<string, seq<Byte>> := map[];
      var i := 0;
      while i < |keys|
        invariant 0 <= i <= |keys|
        invariant forall k :: k in retrieved <==> k in keys[..i] && k in store
        invariant forall k | k in retrieved :: retrieved[k] == store[k]
      {
        var key := keys[i];
        if key in store {
          retrieved := retrieved[key := store[key]];
        }
        i := i + 1;
      }
      assert keys[..i] == keys;
      results := Hits(retrieved);
      var missed := (set k | k in keys) - retrieved.Keys;
      results := results + NoneFor(missed);
      HitsThenMisses(store, keys, retrieved, missed);
    }
  }

  /** The hits of `batch_get`, each as its Base64 text. */
  function Hits(retrieved: map<string, seq<Byte>>): (m: map<string, Option<string>>)
    ensures m.Keys == retrieved.Keys
    ensures forall k | k in m :: m[k] == Some(Encode(StandardAlphabet, retrieved[k]))
  {
    map k | k in retrieved :: Some(Encode(StandardAlphabet, retrieved[k]))
  }

  /** `None` for every key that missed. */
  function NoneFor(missed: set<string>): (m: map<string, Option<string>>)
    ensures m.Keys == missed
    ensures forall k | k in m :: m[k] == None
  {
    map k | k in missed :: None
  }

  /** The hits read from the store, joined with `None` for every key that missed, are the batch's answer. */
  lemma HitsThenMisses(store: map<string, seq<Byte>>, keys: seq<string>, retrieved: map<string, seq<Byte>>, missed: set<string>)
    requires forall k :: k in retrieved <==> k in keys && k in store
    requires forall k | k in retrieved :: retrieved[k] == store[k]
    requires forall k :: k in missed <==> k in keys && k !in retrieved
    ensures Hits(retrieved) + NoneFor(missed) == BatchGetSpec(store, keys)
  {
    var all := Hits(retrieved) + NoneFor(missed);
    var spec := BatchGetSpec(store, keys);
    assert all.Keys == spec.Keys;
    forall k | k in spec
      ensures all[k] == spec[k]
    {
      if k in store {
        assert k in retrieved && k !in missed;
      } else {
        assert k in missed;
      }
    }
  }

  /** A dict item with empty or missing "data" is skipped, whatever its key. */
  lemma {:induction false} EmptyDataSkipped(store: map<string, seq<Byte>>, key: Value, data: Value, decode: string -> Result<seq<Byte>, string>)
    requires !Truthy(data)
    ensures BatchSetSpec(store, [DictItem(key, data)], decode) == Ok(store)
  {
    assert [DictItem(key, data)][1..] == [];
  }

  /** An item whose key is not text, or a pair whose payload is not bytes, leaves the store alone. */
  lemma {:induction false} UntypedItemSkipped(store: map<string, seq<Byte>>, key: Value, payload: Value, decode: string -> Result<seq<Byte>, string>)
    requires !key.Text? || !payload.Blob?
    ensures BatchSetSpec(store, [PairItem(key, payload)], decode) == Ok(store)
  {
    assert [PairItem(key, payload)][1..] == [];
  }

  /**
   * A dict item whose "data" decodes stores the bytes under its key, and
   * `batch_get` of that key then returns their Base64 text.
   */
  lemma {:induction false} SetThenGet(store: map<string, seq<Byte>>, key: string, data: string, bytes: seq<Byte>, decode: string -> Result<seq<Byte>, string>)
    requires data != "" && decode(data) == Ok(bytes)
    ensures BatchSetSpec(store, [DictItem(Text(key), Text(data))], decode) == Ok(store[key := bytes])
    ensures BatchGetSpec(store[key := bytes], [key]) == map[key := Some(Encode(StandardAlphabet, bytes))]
  {
    assert [DictItem(Text(key), Text(data))][1..] == [];
    var r := BatchGetSpec(store[key := bytes], [key]);
    assert r.Keys == {key};
  }

  /** A failing item anywhere in the batch fails the whole batch. */
  lemma {:induction false} BatchSetFailsOnBadItem(store: map<string, seq<Byte>>, items: seq<Item>, decode: string -> Result<seq<Byte>, string>, key: Value, data: Value)
    requires Truthy(data) && DecodeValue(decode, data).Err?
    ensures BatchSetSpec(store, items + [DictItem(key, data)], decode).Err?
    decreases |items|
  {
    if items == [] {
      assert ([] + [DictItem(key, data)]) == [DictItem(key, data)];
    } else {
      var next := SetItem(store, items[0], decode);
      assert (items + [DictItem(key, data)])[1..] == items[1..] + [DictItem(key, data)];
      if next.Ok? {
        BatchSetFailsOnBadItem(next.value, items[1..], decode, key, data);
      }
    }
  }
}
