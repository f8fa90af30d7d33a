/** The map exercises of maps.go: reading with a zero value, the comma-ok
    lookup, building a map from two parallel lists, deleting on a flag, and
    the two ways of tallying page hits (a map of maps, a map with a struct key). */
module Maps {
  import opened Wrappers

  // ---------------------------------------------------------------------
  // Reading a map

  /** `m[key]`: the stored value, or the element type's zero value (passed
      explicitly as `zero`) when the key is absent. */
  function Get<K, V>(m: map<K, V>, key: K, zero: V): (r: V)
    ensures key in m ==> r == m[key]
    ensures key !in m ==> r == zero
  {
    if key in m then m[key] else zero
  }

  /** `elem, ok := m[key]`: `ok` says whether the key is present, and `elem`
      is the stored value or the zero value. */
  function Lookup<K, V>(m: map<K, V>, key: K, zero: V): (r: (V, bool))
    ensures r.1 <==> key in m
    ensures !r.1 ==> r.0 == zero
    ensures r.1 ==> r.0 == m[key]
  {
    (Get(m, key, zero), key in m)
  }

  /** After `m[key] = elem` the key reads back as present with that value, and
      every other key reads as before. */
  lemma LookupAfterStore<K, V>(m: map<K, V>, key: K, elem: V, zero: V)
    ensures Lookup(m[key := elem], key, zero) == (elem, true)
    ensures forall k :: k != key ==> Lookup(m[key := elem], k, zero) == Lookup(m, k, zero)
  {
  }

  /** After `delete(m, key)` the key reads as absent with the zero value, and
      every other key reads as before. */
  lemma LookupAfterDelete<K, V>(m: map<K, V>, key: K, zero: V)
    ensures Lookup(m - {key}, key, zero) == (zero, false)
    ensures forall k :: k != key ==> Lookup(m - {key}, k, zero) == Lookup(m, k, zero)
  {
  }

  /** `m[key]++` on a map of counters: an absent key counts as 0, so the key is
      created with 1; no other counter changes. */
  function Increment<K>(m: map<K, int>, key: K): (r: map<K, int>)
    ensures r.Keys == m.Keys + {key}
    ensures Get(r, key, 0) == Get(m, key, 0) + 1
    ensures forall k | k in m && k != key :: r[k] == m[k]
  {
    m[key := Get(m, key, 0) + 1]
  }

  /** A Go map is a reference: a function that receives one and stores into it
      or deletes from it changes the caller's map.  The map is held here as a
      value in a field that the functions below reassign. */
  class MapRef<K(==), V> {
    var m: map<K, V>

    constructor (m: map<K, V>)
      ensures this.m == m
    {
      this.m := m;
    }
  }

  // ---------------------------------------------------------------------
  // getUserMap

  datatype User = User(name: string, phoneNumber: int)

  /** The names listed, as a set. */
  ghost function NameSet(names: seq<string>): set<string>
  {
    set i | 0 <= i < |names| :: names[i]
  }

  /** Index `i` is the last position of `names` holding `names[i]`. */
  ghost predicate IsLastIndex(names: seq<string>, i: int)
  {
    0 <= i < |names| && forall j :: i < j < |names| ==> names[j] != names[i]
  }

  /** The map the loop of getUserMap builds: entry `i` is written after
      entries `0 .. i-1`, so a repeated name keeps its last phone number. */
  function UsersFrom(names: seq<string>, phoneNumbers: seq<int>): (r: map<string, User>)
    requires |names| == |phoneNumbers|
    decreases |names|
  {
    if names == [] then map[]
    else
      var n := |names| - 1;
      UsersFrom(names[..n], phoneNumbers[..n])[names[n] := User(names[n], phoneNumbers[n])]
  }

  /** The keys of the built map are exactly the names listed. */
  lemma {:induction false} UsersFromKeys(names: seq<string>, phoneNumbers: seq<int>)
    requires |names| == |phoneNumbers|
    ensures UsersFrom(names, phoneNumbers).Keys == NameSet(names)
    decreases |names|
  {
    if names != [] {
      var n := |names| - 1;
      UsersFromKeys(names[..n], phoneNumbers[..n]);
      assert NameSet(names) == NameSet(names[..n]) + {names[n]} by {
        forall x | x in NameSet(names) ensures x in NameSet(names[..n]) + {names[n]} {
          var i :| 0 <= i < |names| && names[i] == x;
          if i < n {
            assert names[..n][i] == x;
          }
        }
        forall x | x in NameSet(names[..n]) ensures x in NameSet(names) {
          var i :| 0 <= i < n && names[..n][i] == x;
          assert names[i] == x;
        }
      }
    }
  }

  /** Each name is stored with the phone number at the last index holding it. */
  lemma {:induction false} UsersFromLastWins(names: seq<string>, phoneNumbers: seq<int>, i: int)
    requires |names| == |phoneNumbers|
    requires IsLastIndex(names, i)
    ensures names[i] in UsersFrom(names, phoneNumbers)
    ensures UsersFrom(names, phoneNumbers)[names[i]] == User(names[i], phoneNumbers[i])
    decreases |names|
  {
    var n := |names| - 1;
    if i < n {
      assert IsLastIndex(names[..n], i);
      UsersFromLastWins(names[..n], phoneNumbers[..n], i);
    }
  }

  /** getUserMap: "invalid sizes" exactly when the two lists differ in length;
      otherwise one entry per distinct name, holding the phone number at the
      last index of that name. */
  method GetUserMap(names: seq<string>, phoneNumbers: seq<int>) returns (r: Result<map<string, User>, string>)
    ensures r.Failure? <==> |names| != |phoneNumbers|
    ensures r.Failure? ==> r.error == "invalid sizes"
    ensures r.Success? ==> r.value.Keys == NameSet(names)
    ensures r.Success? ==> forall i :: IsLastIndex(names, i) ==>
              names[i] in r.value && r.value[names[i]] == User(names[i], phoneNumbers[i])
  {
    var users: map<string, User> := map[];
    if |names| != |phoneNumbers| {
      return Failure("invalid sizes");
    }
    for i := 0 to |names|
      invariant users == UsersFrom(names[..i], phoneNumbers[..i])
    {
      var name := names[i];
      users := users[name := User(name, phoneNumbers[i])];
      assert names[..i + 1][..i] == names[..i];
      assert phoneNumbers[..i + 1][..i] == phoneNumbers[..i];
    }
    assert names[..|names|] == names;
    assert phoneNumbers[..|phoneNumbers|] == phoneNumbers;
    UsersFromKeys(names, phoneNumbers);
    forall i | IsLastIndex(names, i)
      ensures names[i] in users && users[names[i]] == User(names[i], phoneNumbers[i])
    {
      UsersFromLastWins(names, phoneNumbers, i);
    }
    return Success(users);
  }

  // ---------------------------------------------------------------------
  // deleteIfNecessary

  datatype ScheduledUser = ScheduledUser(name: string, number: int, scheduledForDeletion: bool)

  /** Every entry is stored under its own name, as the harness builds the map. */
  ghost predicate KeyedByName(users: map<string, ScheduledUser>)
  {
    forall k | k in users :: users[k].name == k
  }

  /** deleteIfNecessary: an absent name reports "not found", a present name not
      scheduled for deletion is kept, a scheduled name is removed; nothing else
      in the map changes. */
  method DeleteIfNecessary(users: MapRef<string, ScheduledUser>, name: string)
    returns (deleted: bool, err: Option<string>)
    modifies users
    ensures name !in old(users.m) ==>
              !deleted && err == Some("not found") && users.m == old(users.m)
    ensures name in old(users.m) && !old(users.m)[name].scheduledForDeletion ==>
              !deleted && err == None && users.m == old(users.m)
    ensures name in old(users.m) && old(users.m)[name].scheduledForDeletion ==>
              deleted && err == None && users.m == old(users.m) - {name}
    ensures users.m.Keys == old(users.m).Keys - (if deleted then {name} else {})
    ensures forall k | k in users.m :: users.m[k] == old(users.m)[k]
    ensures KeyedByName(old(users.m)) ==> KeyedByName(users.m)
  {
    var user, ok := Get(users.m, name, ScheduledUser("", 0, false)), name in users.m;
    if !ok {
      return false, Some("not found");
    }
    if !user.scheduledForDeletion {
      return false, None;
    }
    users.m := users.m - {name};
    return true, None;
  }

  // ---------------------------------------------------------------------
  // Page hits: a map of maps, and a map with a struct key

  /** An inner map of the map of maps: `None` is a nil map, which reads as
      empty but panics when written to. */
  type Inner = Option<map<string, int>>

  /** No path holds a nil inner map, so `add` can write into any of them. */
  ghost predicate NoNilInner(hits: map<string, Inner>)
  {
    forall p | p in hits :: hits[p].Some?
  }

  /** `hits[path][country]`: a missing path reads as a nil inner map, whose
      every country reads as 0. */
  function HitCount(hits: map<string, Inner>, path: string, country: string): (r: int)
  {
    match Get(hits, path, None)
    case None => 0
    case Some(mm) => Get(mm, country, 0)
  }

  /** The new value of the outer map after `add(hits, path, country)`: the
      inner map for `path` is created when missing, then its `country`
      counter goes up by one.  Writing into a nil inner map stored under
      `path` would panic. */
  function AddNested(hits: map<string, Inner>, path: string, country: string)
    : (r: map<string, Inner>)
    requires path in hits ==> hits[path].Some?
    ensures r.Keys == hits.Keys + {path}
    ensures path !in hits ==> r[path] == Some(map[country := 1])
    ensures r[path].Some? && (NoNilInner(hits) ==> NoNilInner(r))
    ensures path in hits ==> r[path] == Some(Increment(hits[path].value, country))
    ensures forall p | p in hits && p != path :: r[p] == hits[p]
    ensures HitCount(r, path, country) == HitCount(hits, path, country) + 1
    ensures forall p, c :: (p != path || c != country) ==> HitCount(r, p, c) == HitCount(hits, p, c)
  {
    var mm := if path in hits then hits[path].value else map[];
    hits[path := Some(Increment(mm, country))]
  }

  /** add: the inner map is looked up, and made and stored when missing;
      `mm[country]++` then writes into it, which needs it to be non-nil.  The
      inner map is a reference in Go, so the increment shows through
      `m[path]`; here the updated inner value is stored back under `path`. */
  method Add(m: MapRef<string, Inner>, path: string, country: string)
    requires path in m.m ==> m.m[path].Some?
    modifies m
    ensures m.m == AddNested(old(m.m), path, country)
  {
    var mm, ok := Get(m.m, path, None), path in m.m;
    if !ok {
      mm := Some(map[]);
      m.m := m.m[path := mm];
    }
    mm := Some(Increment(mm.value, country));
    m.m := m.m[path := mm];
  }

  datatype Key = Key(path: string, country: string)

  /** `hits[Key{path, country}]++` on the struct-keyed design. */
  method AddHit(hits: MapRef<Key, int>, key: Key)
    modifies hits
    ensures hits.m == Increment(old(hits.m), key)
  {
    hits.m := hits.m[key := Get(hits.m, key, 0) + 1];
  }

  /** The two designs tally the same when every `hits[path][country]` equals
      `hits[Key{path, country}]`. */
  ghost predicate SameTally(nested: map<string, Inner>, keyed: map<Key, int>)
  {
    forall p, c :: HitCount(nested, p, c) == Get(keyed, Key(p, c), 0)
  }

  /** Recording one visit in both designs keeps their tallies equal. */
  lemma AddKeepsSameTally(nested: map<string, Inner>, keyed: map<Key, int>,
                          path: string, country: string)
    requires SameTally(nested, keyed) && (path in nested ==> nested[path].Some?)
    ensures SameTally(AddNested(nested, path, country), Increment(keyed, Key(path, country)))
  {
    var nested', keyed' := AddNested(nested, path, country), Increment(keyed, Key(path, country));
    forall p, c ensures HitCount(nested', p, c) == Get(keyed', Key(p, c), 0) {
      if p != path || c != country {
        assert Key(p, c) != Key(path, country);
      }
    }
  }
}
