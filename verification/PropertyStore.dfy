/**
 The property store (proxy/property_store.c): a hash map keyed by the packed (window, property) pair, proved
 to be a map from pairs to byte strings.
 */
module PropertyStore {
  import opened Wrappers
  import opened Codec

  datatype Pair = Pair(window: Int32, property: Int32)

  // ---------- the packed key ----------

  function Unsigned(n: Int32): int {
    if n >= 0 then n else n + 0x1_0000_0000
  }

  /** PROP_KEY: the window's 32 bits above the property's, read as a signed 64-bit number. */
  function PropKey(at: Pair): (k: int)
    ensures -0x8000_0000_0000_0000 <= k < 0x8000_0000_0000_0000
  {
    var u := Unsigned(at.window) * 0x1_0000_0000 + Unsigned(at.property);
    if u < 0x8000_0000_0000_0000 then u else u - 0x1_0000_0000_0000_0000
  }

  /** Two pairs share a key only when they are the same pair, negative ids included. */
  lemma PropKeyIsInjective(a: Pair, b: Pair)
    ensures PropKey(a) == PropKey(b) <==> a == b
  {
    var ua, ub := Unsigned(a.window), Unsigned(b.window);
    if PropKey(a) == PropKey(b) {
      assert ua * 0x1_0000_0000 + Unsigned(a.property) == ub * 0x1_0000_0000 + Unsigned(b.property);
      assert ua == ub;
    }
  }

  // ---------- the map it is meant to be ----------

  const REPLACE := 0
  const PREPEND := 1
  const APPEND := 2

  type Contents = map<Pair, seq<Byte>>

  function Added(m: Contents, at: Pair): Contents {
    if at in m then m else m[at := []]
  }

  function Combined(mode: int, v: seq<Byte>, was: seq<Byte>): seq<Byte> {
    if mode == REPLACE then v else if mode == PREPEND then v + was else was + v
  }

  /** Only an existing property changes, and only in one of the three known ways. */
  function Changed(m: Contents, at: Pair, mode: int, v: seq<Byte>): Contents {
    if at in m && REPLACE <= mode <= APPEND then m[at := Combined(mode, v, m[at])] else m
  }

  function Removed(m: Contents, at: Pair): Contents {
    m - {at}
  }

  /** The bytes of a property after a set: with mode 0 the new ones, with mode 1 the new ones and then the old
      ones, with mode 2 the old ones and then the new ones; with any other mode, and for any other property,
      what they were. */
  lemma ChangedBytes(m: Contents, at: Pair, mode: int, v: seq<Byte>, other: Pair)
    ensures var t := Changed(m, at, mode, v);
            && t.Keys == m.Keys
            && (other in m && (other != at || mode < 0 || mode > 2) ==> t[other] == m[other])
            && (at in m && mode == 0 ==> t[at] == v)
            && (at in m && mode == 1 ==> |t[at]| == |v| + |m[at]| && t[at][..|v|] == v && t[at][|v|..] == m[at])
            && (at in m && mode == 2 ==> |t[at]| == |m[at]| + |v| && t[at][..|m[at]|] == m[at] && t[at][|m[at]|..] == v)
  {
  }

  /** An add changes no bytes, and a property that was not there is empty. */
  lemma AddedBytes(m: Contents, at: Pair, other: Pair)
    ensures other in Added(m, at) <==> other in m || other == at
    ensures other in Added(m, at) ==> Added(m, at)[other] == if other in m then m[other] else []
  {
  }

  // ---------- the store ----------

  /** data is null when len is 0. */
  datatype Value = Value(data: Option<seq<Byte>>, len: int)

  predicate Stands(v: Value, bytes: seq<Byte>) {
    v.len == |bytes| && v.data == (if bytes == [] then None else Some(bytes))
  }

  class Store {
    var entries: map<int, Value>
    ghost var contents: Contents

    ghost predicate Valid()
      reads this
    {
      forall at: Pair :: (at in contents <==> PropKey(at) in entries)
        && (at in contents ==> Stands(entries[PropKey(at)], contents[at]))
    }

    constructor ()
      ensures Valid() && contents == map[]
    {
      entries, contents := map[], map[];
    }

    lemma OtherKeys(at: Pair)
      ensures forall other: Pair :: PropKey(other) == PropKey(at) ==> other == at
    {
      forall other: Pair | PropKey(other) == PropKey(at)
        ensures other == at
      {
        PropKeyIsInjective(other, at);
      }
    }

    /** Adding twice keeps the value. */
    method Add(at: Pair)
      requires Valid()
      modifies this
      ensures Valid() && contents == Added(old(contents), at)
    {
      OtherKeys(at);
      if PropKey(at) !in entries {
        entries := entries[PropKey(at) := Value(None, 0)];
        contents := contents[at := []];
      }
    }

    /** len bytes of data; none when len is not positive. */
    method Set(at: Pair, mode: int, data: seq<Byte>, len: Int32) returns (ok: bool)
      requires Valid() && len <= |data|
      requires at in contents && mode != REPLACE ==> |contents[at]| + len < 0x8000_0000
      modifies this
      ensures Valid() && contents == Changed(old(contents), at, mode, data[..NonNegative(len)])
      ensures ok <==> at in old(contents) && REPLACE <= mode <= APPEND
    {
      OtherKeys(at);
      var key := PropKey(at);
      if key !in entries {
        return false;
      }
      var val := entries[key];
      ghost var v, was := data[..NonNegative(len)], contents[at];
      assert [] + was == was + [] == was && v + [] == [] + v == v;
      if mode == REPLACE {
        val := Value(if len > 0 then Some(data[..len]) else None, if len > 0 then len else 0);
      } else if mode == PREPEND {
        if len > 0 {
          val := Value(Some(data[..len] + (if val.len > 0 then val.data.value else [])), len + val.len);
        }
      } else if mode == APPEND {
        if len > 0 {
          val := Value(Some((if val.len > 0 then val.data.value else []) + data[..len]), val.len + len);
        }
      } else {
        return false;
      }
      assert Stands(val, Combined(mode, v, was));
      entries := entries[key := val];
      contents := contents[at := Combined(mode, v, was)];
      ok := true;
    }

    method Remove(at: Pair) returns (was: bool)
      requires Valid()
      modifies this
      ensures Valid() && contents == Removed(old(contents), at)
      ensures was <==> at in old(contents)
    {
      OtherKeys(at);
      was := PropKey(at) in entries;
      entries := entries - {PropKey(at)};
      contents := contents - {at};
    }

    method Get(at: Pair) returns (found: bool, data: Option<seq<Byte>>, len: int)
      requires Valid()
      ensures found <==> at in contents
      ensures found ==> Stands(Value(data, len), contents[at])
      ensures !found ==> data == None && len == -1
    {
      OtherKeys(at);
      if PropKey(at) !in entries {
        return false, None, -1;
      }
      return true, entries[PropKey(at)].data, entries[PropKey(at)].len;
    }
  }
}
