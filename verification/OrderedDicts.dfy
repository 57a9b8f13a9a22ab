/** Python's insertion-ordered dictionary, as far as the bounded caches use it. */
module OrderedDicts {
  import opened Contracts
  import opened Recency

  class OrderedDict<V> {
    var keys: seq<string>
    var items: map<string, V>

    ghost predicate Valid()
      reads this
    {
      Distinct(keys) && forall k :: k in items <==> k in keys
    }

    constructor ()
      ensures Valid() && keys == [] && items == map[]
    {
      keys, items := [], map[];
    }

    /** `d[key] = value`: a new key goes to the end, a present one keeps its place. */
    method Put(key: string, value: V)
      requires Valid()
      modifies this
      ensures Valid()
      ensures items == old(items)[key := value]
      ensures keys == if key in old(items) then old(keys) else old(keys) + [key]
    {
      if key !in items {
        DistinctAppend(keys, key);
        keys := keys + [key];
      }
      items := items[key := value];
    }

    /** `d.move_to_end(key)`, for a key that is present. */
    method MoveToEnd(key: string)
      requires Valid() && key in items
      modifies this`keys
      ensures Valid() && keys == Without(old(keys), key) + [key]
    {
      WithoutKeepsDistinct(keys, key);
      WithoutMembers(keys, key);
      DistinctAppend(Without(keys, key), key);
      keys := Without(keys, key) + [key];
    }

    /** `d.popitem(last=False)`, for a dictionary that is not empty. */
    method PopOldest()
      requires Valid() && keys != []
      modifies this
      ensures Valid() && keys == old(keys)[1..] && items == old(items) - {old(keys)[0]}
    {
      assert keys == [keys[0]] + keys[1..];
      assert keys[0] !in keys[1..];
      items := items - {keys[0]};
      keys := keys[1..];
    }

    /** `while len(d) > capacity: d.popitem(last=False)`: the newest `capacity` keys stay. */
    method EvictDownTo(capacity: nat)
      requires Valid()
      modifies this
      ensures Valid()
      ensures keys == LastN(old(keys), capacity)
      ensures items == map k | k in keys :: old(items)[k]
    {
      ghost var all, stored := keys, items;
      while |keys| > capacity
        invariant Valid()
        invariant LastN(keys, capacity) == LastN(all, capacity)
        invariant forall k :: k in items ==> k in stored && items[k] == stored[k]
        decreases |keys|
      {
        LastNDropsFirst(keys, capacity);
        PopOldest();
      }
      assert forall k <- keys :: k in items;
    }
  }
}
