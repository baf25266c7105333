/** The content-addressed blob store and the orphan sweep that runs beside the workers. */
module Blobs {
  import opened Prelude

  type Bytes = seq<nat>

  const HEX_DIGITS: string := "0123456789abcdef"

  predicate AllHex(s: string) {
    forall k :: 0 <= k < |s| ==> s[k] in HEX_DIGITS
  }

  /** Whether `key` has the shape the poll body gives its uploads: 64 lowercase hex digits, then
      the suffix. */
  predicate IsContentAddressedKey(key: string) {
    if |key| < 3 || key[|key| - 3..] != ".md" then false else
      var stem := key[..|key| - 3];
      if |stem| != 64 then false else AllHex(stem)
  }

  /** The keys a sweep may delete: 67 characters, of which the first 64 are digits or the letters a to f
      and the last three are ".md". */
  lemma ContentAddressedIff(key: string)
    ensures IsContentAddressedKey(key) <==>
      && |key| == 67 && key[64] == '.' && key[65] == 'm' && key[66] == 'd'
      && forall k :: 0 <= k < 64 ==> '0' <= key[k] <= '9' || 'a' <= key[k] <= 'f'
  {
    HexIff();
    if |key| == 67 {
      var stem, suffix := key[..64], key[64..];
      assert |key| - 3 == 64 && forall k :: 0 <= k < 64 ==> stem[k] == key[k];
      assert suffix[0] == key[64] && suffix[1] == key[65] && suffix[2] == key[66];
      assert suffix == [key[64], key[65], key[66]];
    }
  }

  lemma HexIff()
    ensures forall c :: c in HEX_DIGITS <==> '0' <= c <= '9' || 'a' <= c <= 'f'
  {
    assert HEX_DIGITS[0] == '0' && HEX_DIGITS[1] == '1' && HEX_DIGITS[2] == '2' && HEX_DIGITS[3] == '3';
    assert HEX_DIGITS[4] == '4' && HEX_DIGITS[5] == '5' && HEX_DIGITS[6] == '6' && HEX_DIGITS[7] == '7';
    assert HEX_DIGITS[8] == '8' && HEX_DIGITS[9] == '9' && HEX_DIGITS[10] == 'a' && HEX_DIGITS[11] == 'b';
    assert HEX_DIGITS[12] == 'c' && HEX_DIGITS[13] == 'd' && HEX_DIGITS[14] == 'e' && HEX_DIGITS[15] == 'f';
  }

  /** The in-memory blob store: a dictionary changed in place. */
  class MemoryBlobStore {
    var data: map<string, Bytes>

    constructor ()
      ensures data == map[]
    {
      data := map[];
    }

    /** Writing the same bytes twice is a no-op; different bytes under one key are refused. */
    method Put(key: string, body: Bytes) returns (ok: bool)
      modifies this
      ensures ok <==> key !in old(data) || old(data)[key] == body
      ensures data == if key in old(data) then old(data) else old(data)[key := body]
      ensures ok ==> key in data && data[key] == body
    {
      if key !in data {
        data := data[key := body];
        return true;
      }
      return data[key] == body;
    }

    /** Every key once, in some order. */
    method Keys() returns (keys: seq<string>)
      ensures NoDuplicates(keys) && forall k :: k in keys <==> k in data
    {
      keys := [];
      var rest := data.Keys;
      while rest != {}
        invariant NoDuplicates(keys) && rest <= data.Keys
        invariant forall k :: k in keys <==> k in data && k !in rest
        decreases |rest|
      {
        var k :| k in rest;
        keys := keys + [k];
        rest := rest - {k};
      }
    }

    /** Deleting a missing key is not an error. */
    method Delete(key: string)
      modifies this
      ensures data == old(data) - {key}
    {
      data := data - {key};
    }
  }

  /** A key the sweep reclaims when it reaches it. */
  predicate Reclaims(referenced: set<string>, key: string) {
    key !in referenced && IsContentAddressedKey(key)
  }

  function Reclaimed(keys: seq<string>, referenced: set<string>): set<string> {
    set k | k in keys && Reclaims(referenced, k)
  }

  /** What a sweep leaves: the referenced keys and the keys of another shape, with their bytes. */
  function Swept(data: map<string, Bytes>, referenced: set<string>): map<string, Bytes> {
    map k | k in data && !Reclaims(referenced, k) :: data[k]
  }

  lemma NothingReclaimed(data: map<string, Bytes>, referenced: set<string>)
    ensures data - Reclaimed([], referenced) == data
  {
  }

  /** Reaching one more key reclaims it or leaves the store as it is. */
  lemma ReclaimedStep(data: map<string, Bytes>, keys: seq<string>, key: string, referenced: set<string>)
    requires key in data && key !in keys
    ensures key in data - Reclaimed(keys, referenced)
    ensures data - Reclaimed(keys + [key], referenced)
      == if Reclaims(referenced, key) then data - Reclaimed(keys, referenced) - {key} else data - Reclaimed(keys, referenced)
  {
    hide Reclaims;
  }

  lemma AllReclaimed(data: map<string, Bytes>, keys: seq<string>, referenced: set<string>)
    requires forall k :: k in keys <==> k in data
    ensures data - Reclaimed(keys, referenced) == Swept(data, referenced)
  {
    hide Reclaims;
  }

  lemma RemoveOne(data: map<string, Bytes>, key: string)
    requires key in data
    ensures |data - {key}| == |data| - 1
  {
    assert (data - {key}).Keys == data.Keys - {key};
    assert |(data - {key}).Keys| == |data - {key}|;
  }

  /** The sweep loop's pass over the store it was given. */
  class SweepLoop {
    const store: MemoryBlobStore

    constructor (store: MemoryBlobStore)
      ensures this.store == store
    {
      this.store := store;
    }

    /** One pass of the sweep with nothing else running. `referenced` is the key set read from the
        version rows; the keys are listed once, and deleted one at a time. */
    method SweepOnce(referenced: set<string>) returns (reclaimed: nat)
      modifies store
      ensures store.data == Swept(old(store.data), referenced)
      ensures reclaimed == |old(store.data)| - |store.data|
    {
      hide IsContentAddressedKey, Reclaimed, Swept;
      var keys := store.Keys();
      reclaimed := 0;
      NothingReclaimed(store.data, referenced);
      for i := 0 to |keys|
        invariant store.data == old(store.data) - Reclaimed(keys[..i], referenced)
        invariant reclaimed == |old(store.data)| - |store.data|
      {
        TakeSnoc(keys, i);
        ReclaimedStep(old(store.data), keys[..i], keys[i], referenced);
        if keys[i] in referenced {
          continue;
        }
        if !IsContentAddressedKey(keys[i]) {
          continue;
        }
        RemoveOne(store.data, keys[i]);
        store.Delete(keys[i]);
        reclaimed := reclaimed + 1;
      }
      assert keys[..|keys|] == keys;
      AllReclaimed(old(store.data), keys, referenced);
    }
  }
}
