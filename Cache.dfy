/**
 * service/cache_service.py: `CacheService`, a process-wide dictionary. Every
 * construction hands out the one instance, and only the first construction
 * creates its dictionary.
 */
module Cache {
  import opened Wrappers

  /** The cache instance: a dictionary from keys to values. */
  class CacheService<V> {
    var dictionary: map<string, V>

    constructor()
      ensures dictionary == map[]
    {
      dictionary := map[];
    }

    /** `add`: stores the value only when the key is absent, and says whether it did. */
    method Add(key: string, value: V) returns (added: bool)
      modifies this
      ensures added <==> key !in old(dictionary)
      ensures added ==> dictionary == old(dictionary)[key := value]
      ensures !added ==> dictionary == old(dictionary)
    {
      if key in dictionary {
        return false;
      }
      dictionary := dictionary[key := value];
      return true;
    }

    /** `set`: stores the value, replacing any previous one. */
    method Set(key: string, value: V)
      modifies this
      ensures dictionary == old(dictionary)[key := value]
    {
      dictionary := dictionary[key := value];
    }

    /** `get`: the stored value, or None when the key is absent. */
    function Get(key: string): (r: Option<V>)
      reads this
      ensures r.None? <==> key !in dictionary
      ensures r.Some? ==> key in dictionary && r.value == dictionary[key]
    {
      if key in dictionary then Some(dictionary[key]) else None
    }

    /** `contain`: whether the key is present. */
    function Contain(key: string): (r: bool)
      reads this
      ensures r <==> Get(key).Some?
    {
      key in dictionary
    }
  }

  /**
   * The class-level state behind the singleton: the `_instance` handed out
   * by `__new__` and the `_initialized` flag set by the first `__init__`.
   */
  class CacheClass<V> {
    var instance: CacheService?<V>
    var initialized: bool

    ghost predicate Valid()
      reads this
    {
      initialized <==> instance != null
    }

    constructor()
      ensures Valid() && instance == null
    {
      instance := null;
      initialized := false;
    }

    /**
     * `CacheService()`: the first call creates the instance with an empty
     * dictionary; every later call returns that same instance and leaves its
     * dictionary as it is.
     */
    method Construct() returns (c: CacheService<V>)
      requires Valid()
      modifies this
      ensures Valid() && instance == c
      ensures old(instance) == null ==> fresh(c) && c.dictionary == map[]
      ensures old(instance) != null ==> c == old(instance) && c.dictionary == old(instance.dictionary)
    {
      if instance == null {
        c := new CacheService();
        instance := c;
        initialized := true;
      } else {
        c := instance;
      }
    }
  }

  /** Two constructions in a row give the same instance, and the second does not clear it. */
  method ConstructTwice<V>(cls: CacheClass<V>, key: string, value: V) returns (first: CacheService<V>, second: CacheService<V>)
    requires cls.Valid()
    modifies cls, cls.instance
    ensures first == second
    ensures second.Get(key) == Some(value)
  {
    first := cls.Construct();
    first.Set(key, value);
    second := cls.Construct();
  }
}
